/**
 * The 3-vector algebra of vector.h. Every operation takes and returns a
 * `Vec3` by value; components are reals. `vec3_length` needs a square
 * root, so `Normalize` receives the length from its caller.
 */
module Vectors {

  datatype Vec3 = Vec3(x: real, y: real, z: real)

  const Zero := Vec3(0.0, 0.0, 0.0)

  /** Lines 12-18, `vec3_scale`: every component times s. */
  function Scale(v: Vec3, s: real): Vec3
  {
    Vec3(v.x * s, v.y * s, v.z * s)
  }

  /** Lines 20-23, `vec3_add`. */
  function Add(a: Vec3, b: Vec3): Vec3
  {
    Vec3(a.x + b.x, a.y + b.y, a.z + b.z)
  }

  /** Lines 25-28, `vec3_subtract`. */
  function Subtract(a: Vec3, b: Vec3): Vec3
  {
    Vec3(a.x - b.x, a.y - b.y, a.z - b.z)
  }

  /** Lines 30-33, `vec3_square_length`; `vec3_length` is its square root. */
  function SquareLength(v: Vec3): real
  {
    v.x * v.x + v.y * v.y + v.z * v.z
  }

  /** Lines 59-62, `vec3_dot`. */
  function Dot(a: Vec3, b: Vec3): real
  {
    a.x * b.x + a.y * b.y + a.z * b.z
  }

  /** Lines 64-73, `vec3_cross`. */
  function Cross(a: Vec3, b: Vec3): Vec3
  {
    Vec3(a.y * b.z - a.z * b.y,
         a.z * b.x - a.x * b.z,
         a.x * b.y - a.y * b.x)
  }

  /**
   * `vec3_normalize`, with `length` standing for `vec3_length(v)`: a zero
   * length gives the zero vector, otherwise v is scaled by 1 / length.
   */
  function Normalize(v: Vec3, length: real): (r: Vec3)
    requires 0.0 <= length && length * length == SquareLength(v)
    ensures length == 0.0 <==> r == Zero
    ensures length != 0.0 ==> SquareLength(r) == 1.0
  {
    if length == 0.0 then Zero
    else
      var r := Scale(v, 1.0 / length);
      ScaledSquareLength(v, 1.0 / length);
      assert (1.0 / length) * (1.0 / length) * (length * length) == 1.0;
      r
  }

  /** Scaling by s scales the squared length by s * s. */
  lemma ScaledSquareLength(v: Vec3, s: real)
    ensures SquareLength(Scale(v, s)) == s * s * SquareLength(v)
  {
  }

  /** Addition is commutative. */
  lemma AddCommutes(a: Vec3, b: Vec3)
    ensures Add(a, b) == Add(b, a)
  {
  }

  /** Subtraction undoes addition. */
  lemma SubtractUndoesAdd(a: Vec3, b: Vec3)
    ensures Subtract(Add(a, b), b) == a
  {
  }

  /** The squared length is the dot product of a vector with itself, and is never negative. */
  lemma SquareLengthIsSelfDot(v: Vec3)
    ensures SquareLength(v) == Dot(v, v)
    ensures SquareLength(v) >= 0.0
  {
    SquareSign(v.x);
    SquareSign(v.y);
    SquareSign(v.z);
  }

  /** A square is never negative. */
  lemma SquareSign(a: real)
    ensures a * a >= 0.0
  {
    if a < 0.0 {
      assert a * a == (-a) * (-a);
    }
  }

  /** Swapping the factors of a cross product negates it. */
  lemma CrossAnticommutes(a: Vec3, b: Vec3)
    ensures Cross(a, b) == Scale(Cross(b, a), -1.0)
  {
  }

  /** A vector crossed with itself is zero. */
  lemma CrossSelfIsZero(a: Vec3)
    ensures Cross(a, a) == Zero
  {
  }

  /** The cross product is orthogonal to both factors. */
  lemma CrossIsOrthogonal(a: Vec3, b: Vec3)
    ensures Dot(a, Cross(a, b)) == 0.0
    ensures Dot(b, Cross(a, b)) == 0.0
  {
  }

  /** Scaling by one changes nothing. */
  lemma ScaleByOne(v: Vec3)
    ensures Scale(v, 1.0) == v
  {
  }

  /** Scaling distributes over addition. */
  lemma ScaleDistributes(a: Vec3, b: Vec3, s: real)
    ensures Scale(Add(a, b), s) == Add(Scale(a, s), Scale(b, s))
  {
  }

  /** Lines 40-44, `vec3_distance` squared: the squared length of the difference. */
  function SquareDistance(a: Vec3, b: Vec3): real
  {
    SquareLength(Subtract(a, b))
  }

  /** The distance is symmetric and never negative. */
  lemma DistanceProperties(a: Vec3, b: Vec3)
    ensures SquareDistance(a, b) == SquareDistance(b, a)
    ensures SquareDistance(a, b) >= 0.0
  {
    SquareLengthIsSelfDot(Subtract(a, b));
    assert Subtract(b, a) == Scale(Subtract(a, b), -1.0);
    ScaledSquareLength(Subtract(a, b), -1.0);
  }
}
