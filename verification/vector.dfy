/**
 Three-component vectors (`src/vector.rs`), used both as points/directions and
 as RGB colours. The f32 components are modelled as reals; rounding is not
 modelled. Square root is a parameter (`sqrt`) of the members that need it, and
 the results of IEEE division by zero (NaN, infinity) are represented by `None`.
 */
module Vectors {
  import opened Options

  datatype Vector3 = Vector3(x: real, y: real, z: real)

  function New(x: real, y: real, z: real): Vector3 {
    Vector3(x, y, z)
  }

  function Zeros(): Vector3 {
    Vector3(0.0, 0.0, 0.0)
  }

  function Ones(): Vector3 {
    Vector3(1.0, 1.0, 1.0)
  }

  /** The sum of the squares of the components. */
  function SquaredNorm(v: Vector3): (s: real)
    ensures s >= 0.0
  {
    v.x * v.x + v.y * v.y + v.z * v.z
  }

  /** The square root of the squared norm; with an exact root it is a non-negative root of it. */
  function Norm(v: Vector3, sqrt: real -> real): (n: real)
    ensures IsSquareRoot(sqrt) ==> 0.0 <= n && n * n == SquaredNorm(v)
  {
    sqrt(SquaredNorm(v))
  }

  /** `sqrt` behaves as the non-negative square root on non-negative inputs. */
  ghost predicate IsSquareRoot(sqrt: real -> real) {
    forall s :: 0.0 <= s ==> 0.0 <= sqrt(s) && sqrt(s) * sqrt(s) == s
  }

  /**
   Each component divided by the norm. A zero norm makes every component NaN
   in f32; that vector is `None` here.
   */
  function Normalized(v: Vector3, sqrt: real -> real): (r: Option<Vector3>)
    ensures r.None? <==> Norm(v, sqrt) == 0.0
    ensures r.Some? ==> MulScalar(r.value, Norm(v, sqrt)) == v
  {
    var n := Norm(v, sqrt);
    if n == 0.0 then None else Some(Vector3(v.x / n, v.y / n, v.z / n))
  }

  /** The unit vector in the direction of `(x, y, z)`, computed from its own sum of squares. */
  function Unit(x: real, y: real, z: real, sqrt: real -> real): (r: Option<Vector3>)
    ensures r == Normalized(New(x, y, z), sqrt)
  {
    var n := sqrt(x * x + y * y + z * z);
    assert SquaredNorm(New(x, y, z)) == x * x + y * y + z * z;
    if n == 0.0 then None else Some(Vector3(x / n, y / n, z / n))
  }

  /** The dot product; a vector dotted with itself gives its squared norm. */
  function Dot(a: Vector3, b: Vector3): (d: real)
    ensures a == b ==> d == SquaredNorm(a)
  {
    a.x * b.x + a.y * b.y + a.z * b.z
  }

  /** The cross product, which is orthogonal to both operands. */
  function Cross(a: Vector3, b: Vector3): (c: Vector3)
    ensures Dot(a, c) == 0.0 && Dot(b, c) == 0.0
  {
    Vector3(a.y * b.z - a.z * b.y,
            a.z * b.x - a.x * b.z,
            a.x * b.y - a.y * b.x)
  }

  /** Applies `f` to each pair of matching components. */
  function Cwise(a: Vector3, b: Vector3, f: (real, real) -> real): Vector3 {
    Vector3(f(a.x, b.x), f(a.y, b.y), f(a.z, b.z))
  }

  function CwiseMul(a: Vector3, b: Vector3): Vector3 {
    Cwise(a, b, (p, q) => p * q)
  }

  /**
   Component-wise quotient. A zero divisor component gives a non-finite f32
   component; such a result is `None` here.
   */
  function CwiseDiv(a: Vector3, b: Vector3): (r: Option<Vector3>)
    ensures r.None? <==> b.x == 0.0 || b.y == 0.0 || b.z == 0.0
    ensures r.Some? ==> CwiseMul(r.value, b) == a
  {
    if b.x == 0.0 || b.y == 0.0 || b.z == 0.0 then None
    else Some(Vector3(a.x / b.x, a.y / b.y, a.z / b.z))
  }

  /** Vector addition (`impl Add<Vector3> for Vector3`); subtracting `b` undoes it. */
  function Add(a: Vector3, b: Vector3): (r: Vector3)
    ensures Sub(r, b) == a
  {
    Vector3(a.x + b.x, a.y + b.y, a.z + b.z)
  }

  /** Vector subtraction (`impl Sub<Vector3> for Vector3`). */
  function Sub(a: Vector3, b: Vector3): Vector3 {
    Vector3(a.x - b.x, a.y - b.y, a.z - b.z)
  }

  /** Scaling with the scalar on the right (`impl Mul<f32> for Vector3`). */
  function MulScalar(v: Vector3, s: real): Vector3 {
    Vector3(v.x * s, v.y * s, v.z * s)
  }

  /** Scaling with the scalar on the left (`impl Mul<Vector3> for f32`); it agrees with scaling on the right. */
  function ScalarMul(s: real, v: Vector3): (r: Vector3)
    ensures r == MulScalar(v, s)
  {
    Vector3(s * v.x, s * v.y, s * v.z)
  }

  /** Negation (`impl Neg for Vector3`): the additive inverse. */
  function Neg(v: Vector3): (r: Vector3)
    ensures Add(v, r) == Zeros()
  {
    Vector3(-v.x, -v.y, -v.z)
  }

  // Constructors and accessors

  lemma ConstructorsAgree(x: real, y: real, z: real)
    ensures Zeros() == New(0.0, 0.0, 0.0)
    ensures Ones() == New(1.0, 1.0, 1.0)
    ensures New(x, y, z).x == x && New(x, y, z).y == y && New(x, y, z).z == z
  {
  }

  // Norms

  lemma SquaredNormTestVectors()
    ensures SquaredNorm(New(1.0, 2.0, 2.0)) == 9.0
    ensures SquaredNorm(New(2.0, 3.0, 6.0)) == 49.0
  {
  }

  /** Only the zero vector has squared norm zero. */
  lemma SquaredNormZeroIffZero(v: Vector3)
    ensures SquaredNorm(v) == 0.0 <==> v == Zeros()
  {
    if SquaredNorm(v) == 0.0 {
      SumOfSquaresIsZero(v.x, v.y, v.z);
    }
  }

  lemma SumOfSquaresIsZero(x: real, y: real, z: real)
    requires x * x + y * y + z * z == 0.0
    ensures x == 0.0 && y == 0.0 && z == 0.0
  {
    SquareNonNegative(x);
    SquareNonNegative(y);
    SquareNonNegative(z);
    NonNegativeSumIsZero(x * x, y * y, z * z);
    ZeroProduct(x, x);
    ZeroProduct(y, y);
    ZeroProduct(z, z);
  }

  lemma SquareNonNegative(r: real)
    ensures r * r >= 0.0
  {
  }

  lemma ZeroProduct(a: real, b: real)
    requires a * b == 0.0
    ensures a == 0.0 || b == 0.0
  {
  }

  lemma NonNegativeSumIsZero(a: real, b: real, c: real)
    requires 0.0 <= a && 0.0 <= b && 0.0 <= c
    requires a + b + c == 0.0
    ensures a == 0.0 && b == 0.0 && c == 0.0
  {
  }

  lemma SquaredNormIsSelfDot(v: Vector3)
    ensures SquaredNorm(v) == Dot(v, v)
  {
  }

  /** Two non-negative reals with equal squares are equal. */
  lemma SquaresDetermineRoot(r: real, k: real)
    requires 0.0 <= r && 0.0 <= k
    requires r * r == k * k
    ensures r == k
  {
    assert (r - k) * (r + k) == r * r - k * k;
    ZeroProduct(r - k, r + k);
  }

  /** With an exact square root, the norm is the one non-negative number whose square is the squared norm. */
  lemma NormIsUniqueRoot(v: Vector3, sqrt: real -> real, r: real)
    requires IsSquareRoot(sqrt)
    requires 0.0 <= r
    ensures 0.0 <= Norm(v, sqrt) && Norm(v, sqrt) * Norm(v, sqrt) == SquaredNorm(v)
    ensures r * r == SquaredNorm(v) <==> r == Norm(v, sqrt)
  {
    if r * r == SquaredNorm(v) {
      SquaresDetermineRoot(r, Norm(v, sqrt));
    }
  }

  lemma NormTestVectors(sqrt: real -> real)
    requires IsSquareRoot(sqrt)
    ensures Norm(New(1.0, 2.0, 2.0), sqrt) == 3.0
    ensures Norm(New(2.0, 3.0, 6.0), sqrt) == 7.0
  {
    SquaresDetermineRoot(sqrt(9.0), 3.0);
    SquaresDetermineRoot(sqrt(49.0), 7.0);
  }

  /** With a true square root, normalization fails exactly on the zero vector. */
  lemma NormalizedDegenerateExactlyAtZero(v: Vector3, sqrt: real -> real)
    requires IsSquareRoot(sqrt)
    ensures Normalized(v, sqrt).None? <==> v == Zeros()
  {
    var s := SquaredNorm(v);
    var n := sqrt(s);
    assert 0.0 <= n && n * n == s;
    SquaredNormZeroIffZero(v);
    if s == 0.0 {
      ZeroProduct(n, n);
    }
  }

  /** With a true square root, a normalized vector has length one. */
  lemma NormalizedHasUnitLength(v: Vector3, sqrt: real -> real)
    requires IsSquareRoot(sqrt)
    requires Normalized(v, sqrt).Some?
    ensures SquaredNorm(Normalized(v, sqrt).value) == 1.0
  {
    var n := Norm(v, sqrt);
    var u := Normalized(v, sqrt).value;
    assert n * n == SquaredNorm(v);
    assert u.x * n == v.x && u.y * n == v.y && u.z * n == v.z;
    calc {
      SquaredNorm(u) * (n * n);
      (u.x * n) * (u.x * n) + (u.y * n) * (u.y * n) + (u.z * n) * (u.z * n);
      SquaredNorm(v);
      n * n;
    }
  }

  lemma UnitTestVectors(sqrt: real -> real)
    requires IsSquareRoot(sqrt)
    ensures Unit(1.0, 2.0, 2.0, sqrt) == Normalized(New(1.0, 2.0, 2.0), sqrt)
                                      == Some(New(1.0 / 3.0, 2.0 / 3.0, 2.0 / 3.0))
    ensures Unit(2.0, 3.0, 6.0, sqrt) == Normalized(New(2.0, 3.0, 6.0), sqrt)
                                      == Some(New(2.0 / 7.0, 3.0 / 7.0, 6.0 / 7.0))
  {
    NormTestVectors(sqrt);
  }

  // Products

  lemma DotTestVectors()
    ensures Dot(New(1.0, 2.0, 2.0), New(2.0, 3.0, 6.0)) == 20.0
    ensures Dot(New(2.0, 3.0, 6.0), New(1.0, 4.0, 8.0)) == 62.0
  {
  }

  lemma DotCommutes(a: Vector3, b: Vector3)
    ensures Dot(a, b) == Dot(b, a)
  {
  }

  const UnitX := New(1.0, 0.0, 0.0)
  const UnitY := New(0.0, 1.0, 0.0)
  const UnitZ := New(0.0, 0.0, 1.0)

  /** The standard basis vectors cycle under the cross product: x × y = z, y × z = x, z × x = y. */
  lemma CrossBasisCycle(a: Vector3, b: Vector3, c: Vector3)
    requires (a, b, c) in {(UnitX, UnitY, UnitZ), (UnitY, UnitZ, UnitX), (UnitZ, UnitX, UnitY)}
    ensures Cross(a, b) == c
  {
  }

  lemma CrossTestVector()
    ensures Cross(New(1.0, 2.0, 3.0), New(-1.0, 10.0, 1.0)) == New(-28.0, -4.0, 12.0)
  {
  }

  lemma CrossAnticommutes(a: Vector3, b: Vector3)
    ensures Cross(b, a) == Neg(Cross(a, b))
  {
  }

  /** The cross product is perpendicular to both of its factors. */
  lemma CrossIsOrthogonal(a: Vector3, b: Vector3)
    ensures Dot(a, Cross(a, b)) == 0.0
    ensures Dot(b, Cross(a, b)) == 0.0
  {
  }

  // Component-wise operations

  /** Each output component of `Cwise` depends only on the matching input components. */
  lemma CwiseIsComponentwise(a: Vector3, b: Vector3, a': Vector3, b': Vector3, f: (real, real) -> real)
    ensures a.x == a'.x && b.x == b'.x ==> Cwise(a, b, f).x == Cwise(a', b', f).x
    ensures a.y == a'.y && b.y == b'.y ==> Cwise(a, b, f).y == Cwise(a', b', f).y
    ensures a.z == a'.z && b.z == b'.z ==> Cwise(a, b, f).z == Cwise(a', b', f).z
    ensures Cwise(a, b, f) == Vector3(f(a.x, b.x), f(a.y, b.y), f(a.z, b.z))
  {
  }

  lemma CwiseTestVectors()
    ensures CwiseMul(New(1.0, 1.0, 1.0), New(1.0, 2.0, 4.0)) == New(1.0, 2.0, 4.0)
    ensures CwiseDiv(New(1.0, 1.0, 1.0), New(1.0, 2.0, 4.0)) == Some(New(1.0, 0.5, 0.25))
  {
  }

  /** Dividing a product by its non-zero factor gives back the other factor. */
  lemma CwiseDivUndoesMul(a: Vector3, b: Vector3)
    requires b.x != 0.0 && b.y != 0.0 && b.z != 0.0
    ensures CwiseDiv(CwiseMul(a, b), b) == Some(a)
  {
    var m := CwiseMul(a, b);
    assert m.x / b.x == a.x && m.y / b.y == a.y && m.z / b.z == a.z;
  }

  // Operators

  lemma OperatorTestVectors()
    ensures Add(New(1.0, 1.0, 1.0), New(1.0, 2.0, 4.0)) == New(2.0, 3.0, 5.0)
    ensures Sub(New(2.0, 3.0, 5.0), New(1.0, 2.0, 4.0)) == New(1.0, 1.0, 1.0)
    ensures ScalarMul(2.0, New(1.0, 2.0, 4.0)) == New(2.0, 4.0, 8.0)
    ensures MulScalar(New(1.0, 2.0, 4.0), 2.0) == New(2.0, 4.0, 8.0)
    ensures Neg(New(1.0, 2.0, 4.0)) == New(-1.0, -2.0, -4.0)
  {
  }

  lemma SubUndoesAdd(a: Vector3, b: Vector3)
    ensures Sub(Add(a, b), b) == a
    ensures Add(Sub(a, b), b) == a
  {
  }

  lemma AddCommutes(a: Vector3, b: Vector3)
    ensures Add(a, b) == Add(b, a)
  {
  }

  /** Scalar multiplication gives the same vector in both operand orders. */
  lemma ScalarMulCommutes(s: real, v: Vector3)
    ensures ScalarMul(s, v) == MulScalar(v, s)
  {
  }

  lemma NegIsScaleByMinusOne(v: Vector3)
    ensures Neg(v) == MulScalar(v, -1.0)
    ensures Neg(Neg(v)) == v
    ensures Add(v, Neg(v)) == Zeros()
  {
  }
}
