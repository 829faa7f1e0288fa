/**
  The integer grid coordinates (`int3`) and the float vectors (`float3`) of the
  simulation, with floats read as reals. The library square root is a parameter
  `sqrt` of which only `IsSqrt` is known; `normalize` is built from it.
 */
module Vectors {

  datatype Int3 = Int3(x: int, y: int, z: int)

  datatype Vec3 = Vec3(x: real, y: real, z: real)

  const Origin := Int3(0, 0, 0)
  const Zero := Vec3(0.0, 0.0, 0.0)

  function AddI(a: Int3, b: Int3): Int3 { Int3(a.x + b.x, a.y + b.y, a.z + b.z) }

  function SubI(a: Int3, b: Int3): Int3 { Int3(a.x - b.x, a.y - b.y, a.z - b.z) }

  /** Squared Euclidean length of an integer offset. */
  function LengthSqI(a: Int3): int { a.x * a.x + a.y * a.y + a.z * a.z }

  function ToVec(a: Int3): Vec3 { Vec3(a.x as real, a.y as real, a.z as real) }

  function Add(a: Vec3, b: Vec3): Vec3 { Vec3(a.x + b.x, a.y + b.y, a.z + b.z) }

  function Sub(a: Vec3, b: Vec3): Vec3 { Vec3(a.x - b.x, a.y - b.y, a.z - b.z) }

  function Scale(v: Vec3, k: real): Vec3 { Vec3(v.x * k, v.y * k, v.z * k) }

  function Dot(a: Vec3, b: Vec3): real { a.x * b.x + a.y * b.y + a.z * b.z }

  function LengthSq(v: Vec3): real { Dot(v, v) }

  function Abs(r: real): real { if r < 0.0 then -r else r }

  /** `math.sign`: 1, -1, or 0 for zero. */
  function Sign(r: real): int { if r > 0.0 then 1 else if r < 0.0 then -1 else 0 }

  /** `math.round`, which rounds half-way values to the even neighbour. */
  function Round(r: real): (n: int)
    ensures r - 0.5 <= n as real <= r + 0.5
    ensures (n as real - r == 0.5 || r - n as real == 0.5) ==> n % 2 == 0
  {
    var f := r.Floor;
    var frac := r - f as real;
    if frac < 0.5 then f
    else if frac > 0.5 then f + 1
    else if f % 2 == 0 then f
    else f + 1
  }

  /** `(int3)math.round(v)`: the rounded components are integral, so the cast is exact. */
  function RoundV(v: Vec3): Int3 { Int3(Round(v.x), Round(v.y), Round(v.z)) }

  /** What the host library's square root is taken to satisfy. */
  ghost predicate IsSqrt(sqrt: real -> real)
  {
    forall x: real {:trigger sqrt(x)} :: 0.0 <= x ==> 0.0 <= sqrt(x) && sqrt(x) * sqrt(x) == x
  }

  /** `math.length`. */
  function Length(v: Vec3, sqrt: real -> real): real { sqrt(LengthSq(v)) }

  /** `math.normalize`; the zero vector (NaN in the host) is mapped to itself. */
  function Normalize(v: Vec3, sqrt: real -> real): Vec3
  {
    var l := Length(v, sqrt);
    if l == 0.0 then Zero else Scale(v, 1.0 / l)
  }

  /** Sum of a buffer of floats, accumulated front to back. */
  function Sum(s: seq<real>): real
  {
    if s == [] then 0.0 else Sum(s[..|s| - 1]) + s[|s| - 1]
  }

  /** Sum of a buffer of vectors, accumulated front to back. */
  function SumV(s: seq<Vec3>): Vec3
  {
    if s == [] then Zero else Add(SumV(s[..|s| - 1]), s[|s| - 1])
  }

  lemma LengthSqNonNegative(v: Vec3)
    ensures LengthSq(v) >= 0.0
  {
    assert v.x * v.x >= 0.0 && v.y * v.y >= 0.0 && v.z * v.z >= 0.0;
  }

  lemma LengthSqScale(v: Vec3, k: real)
    ensures LengthSq(Scale(v, k)) == k * k * LengthSq(v)
  {
    calc {
      LengthSq(Scale(v, k));
      (v.x * k) * (v.x * k) + (v.y * k) * (v.y * k) + (v.z * k) * (v.z * k);
      k * k * (v.x * v.x + v.y * v.y + v.z * v.z);
    }
  }

  /** Scaling one side of a dot product scales the product. */
  lemma DotScaleLeft(v: Vec3, k: real, u: Vec3)
    ensures Dot(Scale(v, k), u) == k * Dot(v, u)
  {
    calc {
      Dot(Scale(v, k), u);
      (v.x * k) * u.x + (v.y * k) * u.y + (v.z * k) * u.z;
      k * (v.x * u.x + v.y * u.y + v.z * u.z);
    }
  }

  /** A non-zero vector normalizes to unit length. */
  lemma NormalizeIsUnit(v: Vec3, sqrt: real -> real)
    requires IsSqrt(sqrt)
    requires LengthSq(v) > 0.0
    ensures LengthSq(Normalize(v, sqrt)) == 1.0
  {
    var l := sqrt(LengthSq(v));
    assert l * l == LengthSq(v);
    assert l != 0.0;
    LengthSqScale(v, 1.0 / l);
    assert (1.0 / l) * (1.0 / l) * (l * l) == 1.0;
  }

  /** The normalized vector points the same way: its dot product with the input is the length. */
  lemma NormalizeDot(v: Vec3, sqrt: real -> real)
    requires IsSqrt(sqrt)
    ensures Dot(Normalize(v, sqrt), v) == Length(v, sqrt)
  {
    LengthSqNonNegative(v);
    var l := sqrt(LengthSq(v));
    if l != 0.0 {
      calc {
        Dot(Normalize(v, sqrt), v);
        (v.x * (1.0 / l)) * v.x + (v.y * (1.0 / l)) * v.y + (v.z * (1.0 / l)) * v.z;
        LengthSq(v) / l;
        (l * l) / l;
        l;
      }
    }
  }
}
