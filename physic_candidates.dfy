/**
  The direction helpers of `TryMoveCellJob`: the primary axis of a movement
  direction, and the candidate coordinates a blocked cell may still move to,
  filled into a fixed-size array and sorted by how well they follow the
  direction.
 */
module PhysicCandidates {
  import opened Vectors
  import opened GlobalConfig
  import opened PositionSort

  /** Component `k` of a vector (0 = x, 1 = y, 2 = z). */
  function Comp(v: Vec3, k: nat): real
    requires k < 3
  {
    if k == 0 then v.x else if k == 1 then v.y else v.z
  }

  function CompI(v: Int3, k: nat): int
    requires k < 3
  {
    if k == 0 then v.x else if k == 1 then v.y else v.z
  }

  /** The vector with `s` on axis `k` and zero elsewhere. */
  function AxisVector(k: nat, s: int): Int3
    requires k < 3
  {
    if k == 0 then Int3(s, 0, 0) else if k == 1 then Int3(0, s, 0) else Int3(0, 0, s)
  }

  /** The first axis on which the absolute component is largest. */
  function MaxAxis(v: Vec3): (k: nat)
    ensures k < 3
    ensures forall j | 0 <= j < 3 :: Abs(Comp(v, j)) <= Abs(Comp(v, k))
    ensures forall j | 0 <= j < k :: Abs(Comp(v, j)) < Abs(Comp(v, k))
  {
    if Abs(v.x) >= Abs(v.y) && Abs(v.x) >= Abs(v.z) then 0
    else if Abs(v.y) >= Abs(v.z) then 1
    else 2
  }

  /**
    `GetPrimaryDirection`: the signed unit step along the axis of largest
    absolute component, ties going to x, then y, then z.
   */
  function GetPrimaryDirection(d: Vec3): (p: Int3)
    ensures p == AxisVector(MaxAxis(d), Sign(Comp(d, MaxAxis(d))))
  {
    var ax := Abs(d.x);
    var ay := Abs(d.y);
    var az := Abs(d.z);
    if ax >= ay && ax >= az then Int3(Sign(d.x), 0, 0)
    else if ay >= ax && ay >= az then Int3(0, Sign(d.y), 0)
    else Int3(0, 0, Sign(d.z))
  }

  /** An offset to one of the 26 cells around a coordinate. */
  predicate IsNeighbourOffset(o: Int3)
  {
    -1 <= o.x <= 1 && -1 <= o.y <= 1 && -1 <= o.z <= 1 && o != Origin
  }

  /** A unit step along one axis. */
  predicate IsAxisStep(p: Int3)
  {
    p in {Int3(1, 0, 0), Int3(-1, 0, 0), Int3(0, 1, 0), Int3(0, -1, 0), Int3(0, 0, 1), Int3(0, 0, -1)}
  }

  /**
    The primary direction has at most one non-zero component, in {-1, 0, 1},
    and it is a unit axis step exactly when the direction is not zero.
   */
  lemma PrimaryDirectionIsAxisStep(d: Vec3)
    ensures var p := GetPrimaryDirection(d);
      && -1 <= p.x <= 1 && -1 <= p.y <= 1 && -1 <= p.z <= 1
      && (p.x == 0 || (p.y == 0 && p.z == 0))
      && (p.y == 0 || p.z == 0)
      && (d != Zero <==> IsAxisStep(p))
  {
    var k := MaxAxis(d);
    if d != Zero {
      assert Abs(Comp(d, 0)) <= Abs(Comp(d, k)) && Abs(Comp(d, 1)) <= Abs(Comp(d, k)) && Abs(Comp(d, 2)) <= Abs(Comp(d, k));
      assert Comp(d, k) != 0.0;
    }
  }

  /** The primary direction agrees in sign with the direction: their dot product is the largest absolute component. */
  lemma PrimaryDirectionAgrees(d: Vec3)
    ensures Dot(ToVec(GetPrimaryDirection(d)), d) == Abs(Comp(d, MaxAxis(d)))
  {
    var k := MaxAxis(d);
    var p := GetPrimaryDirection(d);
    assert Dot(ToVec(p), d) == Sign(Comp(d, k)) as real * Comp(d, k);
  }

  /** Slots allocated for each state. */
  function SlotCount(s: CellState): nat
  {
    match s
    case Solid => 1
    case Powder => 9
    case Liquid => 17
    case _ => 1
  }

  /**
    The ring offset for the loop pair `(i, j)`: `i` and `j` span the two axes
    other than the primary one, which gets the primary component in the layer
    ahead (`bottom`) and 0 in the cell's own layer.
   */
  function RingOffset(i: int, j: int, primary: Int3, bottom: bool): Int3
  {
    var along := if bottom then primary else Origin;
    if primary.x != 0 then Int3(along.x, i, j)
    else if primary.y != 0 then Int3(i, along.y, j)
    else Int3(i, j, along.z)
  }

  /** The outer loop value `i` of the `n`-th loop pair (row-major, counting from 0). */
  function PairI(n: int): int
  {
    if n < 3 then -1 else if n < 6 then 0 else 1
  }

  /** The inner loop value `j` of the `n`-th loop pair. */
  function PairJ(n: int): int
  {
    n - 3 * (PairI(n) + 1) - 1
  }

  /** The ring coordinates for the first `n` of the nine loop pairs in loop order, the centre pair skipped. */
  function Ring(current: Int3, primary: Int3, bottom: bool, n: nat): (r: seq<Int3>)
    requires n <= 9
    ensures |r| == if n > 4 then n - 1 else n
  {
    if n == 0 then []
    else
      var i := PairI(n - 1);
      var j := PairJ(n - 1);
      Ring(current, primary, bottom, n - 1)
        + (if i == 0 && j == 0 then [] else [AddI(current, RingOffset(i, j, primary, bottom))])
  }

  /** What the builder writes, in order, given which of its three blocks run. */
  function Layout(current: Int3, primary: Int3, withPrimary: bool, withBottom: bool, withMiddle: bool): seq<Int3>
  {
    (if withPrimary then [AddI(current, primary)] else [])
    + (if withBottom then Ring(current, primary, true, 9) else [])
    + (if withMiddle then Ring(current, primary, false, 9) else [])
  }

  /** The blocks as written: guarded by `>=` on the state ordinals (Solid 1, Liquid 2, Gas 3, Powder 4). */
  function WrittenLayout(current: Int3, primary: Int3, s: CellState): seq<Int3>
  {
    Layout(current, primary, StateOrdinal(s) >= 1, StateOrdinal(s) >= 4, StateOrdinal(s) >= 2)
  }

  /** The blocks as the slot counts mean them: the primary cell always, the layer ahead for Powder and Liquid, the own layer for Liquid. */
  function IntendedLayout(current: Int3, primary: Int3, s: CellState): seq<Int3>
  {
    Layout(current, primary, true, s == Powder || s == Liquid, s == Liquid)
  }

  function Zeros(n: nat): (r: seq<Int3>)
    ensures |r| == n && forall k | 0 <= k < n :: r[k] == Origin
  {
    seq(n, _ => Origin)
  }

  /** How far candidate `p` follows `direction`: the dot product of the normalized offset with it. */
  function Score(current: Int3, direction: Vec3, sqrt: real -> real): Int3 -> real
  {
    p => Dot(Normalize(ToVec(SubI(p, current)), sqrt), direction)
  }

  /** One more loop pair extends the ring by its coordinate, or by nothing for the centre pair. */
  lemma RingStep(current: Int3, primary: Int3, bottom: bool, i: int, j: int, n: nat)
    requires -1 <= i <= 1 && -1 <= j <= 1 && n == (i + 1) * 3 + (j + 1)
    ensures Ring(current, primary, bottom, n + 1)
         == Ring(current, primary, bottom, n)
            + (if i == 0 && j == 0 then [] else [AddI(current, RingOffset(i, j, primary, bottom))])
  {
    assert PairI(n) == i;
  }

  /** The coordinate the ring loop computes for the pair `(i, j)`. */
  method RingCoordinate(current: Int3, primary: Int3, bottom: bool, i: int, j: int) returns (pos: Int3)
    ensures pos == AddI(current, RingOffset(i, j, primary, bottom))
  {
    pos := current;
    if primary.x != 0 {
      pos := AddI(pos, Int3(if bottom then primary.x else 0, i, j));
    } else if primary.y != 0 {
      pos := AddI(pos, Int3(i, if bottom then primary.y else 0, j));
    } else {
      pos := AddI(pos, Int3(i, j, if bottom then primary.z else 0));
    }
  }

  /** One write of the ring loop: the written run grows by `pos`, and nothing outside the ring's slots changes. */
  method WriteOne(a: array<Int3>, start: nat, index: nat, pos: Int3)
    requires start <= index < start + 8 <= a.Length
    modifies a
    ensures a[start..index + 1] == old(a[start..index]) + [pos]
    ensures forall k | 0 <= k < a.Length && k != index :: a[k] == old(a[k])
  {
    a[index] := pos;
    assert a[start..index + 1] == a[start..index] + [pos];
  }

  /** The inner loop of the ring for one value of `i`: the three pairs `(i, -1)`, `(i, 0)`, `(i, 1)`, skipping the centre. */
  method WriteRow(a: array<Int3>, start: nat, index: nat, current: Int3, primary: Int3, bottom: bool, i: int)
    returns (next: nat)
    requires -1 <= i <= 1 && start + 8 <= a.Length
    requires index == start + |Ring(current, primary, bottom, (i + 1) * 3)|
    requires a[start..index] == Ring(current, primary, bottom, (i + 1) * 3)
    modifies a
    ensures next == start + |Ring(current, primary, bottom, (i + 1) * 3 + 3)|
    ensures a[start..next] == Ring(current, primary, bottom, (i + 1) * 3 + 3)
    ensures forall k | 0 <= k < a.Length && !(start <= k < start + 8) :: a[k] == old(a[k])
  {
    next := index;
    ghost var n := (i + 1) * 3;
    for j := -1 to 2
      invariant n == (i + 1) * 3 + (j + 1) && n <= 9
      invariant next == start + |Ring(current, primary, bottom, n)|
      invariant a[start..next] == Ring(current, primary, bottom, n)
      invariant forall k | 0 <= k < a.Length && !(start <= k < start + 8) :: a[k] == old(a[k])
    {
      RingStep(current, primary, bottom, i, j, n);
      n := n + 1;
      if i == 0 && j == 0 {
        continue;
      }
      var pos := RingCoordinate(current, primary, bottom, i, j);
      WriteOne(a, start, next, pos);
      next := next + 1;
    }
  }

  /** Writes the eight ring coordinates of one layer at `start`, in loop order. */
  method WriteRing(a: array<Int3>, start: nat, current: Int3, primary: Int3, bottom: bool) returns (index: nat)
    requires start + 8 <= a.Length
    modifies a
    ensures index == start + 8
    ensures a[..] == old(a[..start]) + Ring(current, primary, bottom, 9) + old(a[start + 8..])
  {
    index := start;
    for i := -1 to 2
      invariant index == start + |Ring(current, primary, bottom, (i + 1) * 3)|
      invariant a[start..index] == Ring(current, primary, bottom, (i + 1) * 3)
      invariant forall k | 0 <= k < a.Length && !(start <= k < start + 8) :: a[k] == old(a[k])
    {
      index := WriteRow(a, start, index, current, primary, bottom, i);
    }
    assert a[..start] == old(a[..start]);
    assert a[start + 8..] == old(a[start + 8..]);
    assert a[..] == a[..start] + a[start..start + 8] + a[start + 8..];
  }

  /** Overwriting the first zeros after `w` with `block` extends the written prefix by `block`. */
  lemma OverwriteZeros(w: seq<Int3>, block: seq<Int3>, n: nat)
    requires |block| <= n
    ensures (w + Zeros(n))[..|w|] + block + (w + Zeros(n))[|w| + |block|..] == (w + block) + Zeros(n - |block|)
  {
    var lhs := (w + Zeros(n))[..|w|] + block + (w + Zeros(n))[|w| + |block|..];
    var rhs := (w + block) + Zeros(n - |block|);
    assert |lhs| == |rhs|;
    forall k | 0 <= k < |lhs| ensures lhs[k] == rhs[k] {
      if k < |w| {
      } else if k < |w| + |block| {
      } else {
        assert lhs[k] == Origin;
      }
    }
  }

  /** `WriteRing` on an array holding the coordinates written so far followed by zeros. */
  method AppendRing(a: array<Int3>, index: nat, current: Int3, primary: Int3, bottom: bool, ghost written: seq<Int3>)
    returns (next: nat)
    requires index == |written| && index + 8 <= a.Length
    requires a[..] == written + Zeros(a.Length - index)
    modifies a
    ensures next == index + 8
    ensures a[..] == (written + Ring(current, primary, bottom, 9)) + Zeros(a.Length - next)
  {
    OverwriteZeros(written, Ring(current, primary, bottom, 9), a.Length - index);
    next := WriteRing(a, index, current, primary, bottom);
  }

  /**
    Allocates `slots` zero-filled slots and writes the selected blocks from
    index 0; the write bound is the precondition.
   */
  method FillCandidates(current: Int3, primary: Int3, withPrimary: bool, withBottom: bool, withMiddle: bool, slots: nat)
    returns (a: array<Int3>)
    requires |Layout(current, primary, withPrimary, withBottom, withMiddle)| <= slots
    ensures fresh(a)
    ensures a[..] == Layout(current, primary, withPrimary, withBottom, withMiddle)
                     + Zeros(slots - |Layout(current, primary, withPrimary, withBottom, withMiddle)|)
  {
    a := new Int3[slots](_ => Origin);
    var index := 0;
    assert a[..] == Zeros(slots);
    if withPrimary {
      a[index] := AddI(current, primary);
      index := index + 1;
      assert a[..] == [AddI(current, primary)] + Zeros(slots - 1);
    }
    ghost var written: seq<Int3> := if withPrimary then [AddI(current, primary)] else [];
    assert a[..] == written + Zeros(slots - index) && index == |written|;
    if withBottom {
      index := AppendRing(a, index, current, primary, true, written);
      written := written + Ring(current, primary, true, 9);
    }
    if withMiddle {
      index := AppendRing(a, index, current, primary, false, written);
      written := written + Ring(current, primary, false, 9);
    }
    assert written == Layout(current, primary, withPrimary, withBottom, withMiddle);
  }

  /**
    `GetAvailableCoordinates` as written: the blocks are chosen by ordinal
    comparisons, and the writes must stay inside the `SlotCount` slots.
   */
  method GetAvailableCoordinates(current: Int3, primary: Int3, direction: Vec3, s: CellState, sqrt: real -> real)
    returns (a: array<Int3>)
    requires |WrittenLayout(current, primary, s)| <= SlotCount(s)
    ensures fresh(a)
    ensures a[..] == InsertionSorted(WrittenLayout(current, primary, s)
                                     + Zeros(SlotCount(s) - |WrittenLayout(current, primary, s)|),
                                     Score(current, direction, sqrt))
  {
    ghost var layout := WrittenLayout(current, primary, s);
    assert layout == Layout(current, primary, StateOrdinal(s) >= 1, StateOrdinal(s) >= 4, StateOrdinal(s) >= 2);
    a := FillCandidates(current, primary, StateOrdinal(s) >= 1, StateOrdinal(s) >= 4, StateOrdinal(s) >= 2, SlotCount(s));
    assert a[..] == layout + Zeros(SlotCount(s) - |layout|);
    SortPositionsByDirection(a, Score(current, direction, sqrt));
  }

  /**
    The candidate builder with each state's blocks matching its slot count;
    this is the builder the move resolver uses.
   */
  method GetIntendedCoordinates(current: Int3, primary: Int3, direction: Vec3, s: CellState, sqrt: real -> real)
    returns (a: array<Int3>)
    ensures fresh(a)
    ensures a[..] == InsertionSorted(IntendedLayout(current, primary, s), Score(current, direction, sqrt))
  {
    IntendedFillsSlots(current, primary, s);
    a := FillCandidates(current, primary, true, s == Powder || s == Liquid, s == Liquid, SlotCount(s));
    assert Zeros(0) == [];
    assert IntendedLayout(current, primary, s) + Zeros(0) == IntendedLayout(current, primary, s);
    SortPositionsByDirection(a, Score(current, direction, sqrt));
  }

  /** How many coordinates the written blocks produce for each state. */
  lemma WrittenLayoutSizes(current: Int3, primary: Int3)
    ensures |WrittenLayout(current, primary, NoneState)| == 0
    ensures |WrittenLayout(current, primary, Solid)| == 1
    ensures |WrittenLayout(current, primary, Liquid)| == 9
    ensures |WrittenLayout(current, primary, Gas)| == 9
    ensures |WrittenLayout(current, primary, Powder)| == 17
  {
  }

  /**
    The write bound fails for Powder (17 writes into 9 slots) and Gas (9 into
    1), and a Liquid array keeps 8 unwritten slots holding the world origin.
   */
  lemma WrittenBuilderOverflows(current: Int3, primary: Int3)
    ensures |WrittenLayout(current, primary, Powder)| > SlotCount(Powder)
    ensures |WrittenLayout(current, primary, Gas)| > SlotCount(Gas)
    ensures SlotCount(Liquid) - |WrittenLayout(current, primary, Liquid)| == 8
    ensures |WrittenLayout(current, primary, Solid)| <= SlotCount(Solid)
  {
    WrittenLayoutSizes(current, primary);
  }

  /** The intended blocks fill exactly the slots allocated for every state. */
  lemma IntendedFillsSlots(current: Int3, primary: Int3, s: CellState)
    ensures |IntendedLayout(current, primary, s)| == SlotCount(s)
  {
  }

  /** A Solid cell has exactly one candidate: the step along the primary axis. */
  lemma SolidHasSingleCandidate(current: Int3, primary: Int3, direction: Vec3, sqrt: real -> real)
    ensures WrittenLayout(current, primary, Solid) == [AddI(current, primary)]
    ensures IntendedLayout(current, primary, Solid) == [AddI(current, primary)]
    ensures InsertionSorted([AddI(current, primary)], Score(current, direction, sqrt)) == [AddI(current, primary)]
  {
    assert [AddI(current, primary)][..0] == [];
  }

  lemma {:induction false} RingAreNeighbours(current: Int3, primary: Int3, bottom: bool, n: nat)
    requires n <= 9
    requires IsAxisStep(primary)
    ensures forall k | 0 <= k < |Ring(current, primary, bottom, n)| :: IsNeighbourOffset(SubI(Ring(current, primary, bottom, n)[k], current))
  {
    if n > 0 {
      RingAreNeighbours(current, primary, bottom, n - 1);
      var i := PairI(n - 1);
      var j := PairJ(n - 1);
      if !(i == 0 && j == 0) {
        var o := RingOffset(i, j, primary, bottom);
        assert SubI(AddI(current, o), current) == o;
        assert o != Origin by {
          assert i != 0 || j != 0;
        }
      }
    }
  }

  /**
    When the primary direction is a unit axis step, every written candidate is
    one of the 26 neighbours of the current coordinate.
   */
  lemma CandidatesAreNeighbours(current: Int3, primary: Int3, withPrimary: bool, withBottom: bool, withMiddle: bool)
    requires IsAxisStep(primary)
    ensures var l := Layout(current, primary, withPrimary, withBottom, withMiddle);
      forall k | 0 <= k < |l| :: IsNeighbourOffset(SubI(l[k], current))
  {
    RingAreNeighbours(current, primary, true, 9);
    RingAreNeighbours(current, primary, false, 9);
    assert SubI(AddI(current, primary), current) == primary;
    var l := Layout(current, primary, withPrimary, withBottom, withMiddle);
    var p := if withPrimary then [AddI(current, primary)] else [];
    var b := if withBottom then Ring(current, primary, true, 9) else [];
    var m := if withMiddle then Ring(current, primary, false, 9) else [];
    forall k | 0 <= k < |l| ensures IsNeighbourOffset(SubI(l[k], current)) {
      if k < |p| {
        assert l[k] == p[k];
      } else if k < |p| + |b| {
        assert l[k] == b[k - |p|];
      } else {
        assert l[k] == m[k - |p| - |b|];
      }
    }
  }
}
