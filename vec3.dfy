/** The vector kernel of vec3.h: `Vec3T<float>` over exact reals (`Vec3`) and
    `Vec3T<int>` (`Color`), with the operators the renderer uses. Real
    arithmetic is exact, so the laws proved here are the algebraic facts the
    intersection code relies on, not statements about float rounding. */
module Vectors {

  /** `Vec3` = `Vec3T<float>`, its components taken as reals. */
  datatype Vec3 = Vec3(x: real, y: real, z: real)

  /** `Color` = `Vec3T<int>`. */
  datatype Color = Color(x: int, y: int, z: int)

  /** The default constructor `Vec3T()`: the zero vector, the identity of `+`. */
  function Zero(): (r: Vec3)
    ensures r.x == 0.0 && r.y == 0.0 && r.z == 0.0
  {
    Vec3(0.0, 0.0, 0.0)
  }

  /** Vectors are equal when their components are. */
  lemma ComponentsEqual(a: Vec3, b: Vec3)
    requires a.x == b.x && a.y == b.y && a.z == b.z
    ensures a == b
  {
  }

  /** The zero vector is the identity of `+` and `-`. */
  lemma ZeroIdentity(v: Vec3)
    ensures Add(v, Zero()) == v && Sub(v, Zero()) == v
  {
  }

  function Add(a: Vec3, b: Vec3): Vec3 {
    Vec3(a.x + b.x, a.y + b.y, a.z + b.z)
  }

  function Sub(a: Vec3, b: Vec3): Vec3 {
    Vec3(a.x - b.x, a.y - b.y, a.z - b.z)
  }

  /** `operator*` with a scalar. */
  function Scale(a: Vec3, k: real): Vec3 {
    Vec3(a.x * k, a.y * k, a.z * k)
  }

  /** `operator/` with a scalar. */
  function Div(a: Vec3, k: real): Vec3
    requires k != 0.0
  {
    Vec3(a.x / k, a.y / k, a.z / k)
  }

  /** `dot`, accumulated as the source does: x, then y, then z. */
  function Dot(a: Vec3, b: Vec3): real {
    a.x * b.x + a.y * b.y + a.z * b.z
  }

  function Cross(a: Vec3, b: Vec3): Vec3 {
    Vec3(a.y * b.z - a.z * b.y,
         a.z * b.x - a.x * b.z,
         a.x * b.y - a.y * b.x)
  }

  // ----- Facts about real products the solver does not find alone ------

  lemma SquareNonNegative(x: real)
    ensures x * x >= 0.0
  {
  }

  lemma SquarePositive(x: real)
    requires x != 0.0
    ensures x * x > 0.0
  {
  }

  lemma ProductWithZero(a: real, b: real)
    requires a == 0.0
    ensures a * b == 0.0
  {
  }

  lemma CancelPositive(k: real, a: real, b: real)
    requires k > 0.0 && k * a == k * b
    ensures a == b
  {
  }

  /** A sum of three squares is positive unless all three are zero. */
  lemma SumOfSquaresPositive(x: real, y: real, z: real)
    requires x != 0.0 || y != 0.0 || z != 0.0
    ensures x * x + y * y + z * z > 0.0
  {
    SquareNonNegative(x);
    SquareNonNegative(y);
    SquareNonNegative(z);
    if x != 0.0 {
      SquarePositive(x);
    } else if y != 0.0 {
      SquarePositive(y);
    } else {
      SquarePositive(z);
    }
  }

  /** Squaring is strictly increasing on the non-negative reals. */
  lemma SquareStrictlyIncreasing(p: real, q: real)
    requires 0.0 <= p < q
    ensures p * p < q * q
  {
    var d := q - p;
    assert q * q == p * p + 2.0 * p * d + d * d;
    assert d * d > 0.0;
    assert p * d >= 0.0;
  }

  lemma SquareMonotone(p: real, q: real)
    requires 0.0 <= p <= q
    ensures p * p <= q * q
  {
    if p < q { SquareStrictlyIncreasing(p, q); }
  }

  /** Two non-negative reals with the same square are equal. */
  lemma SquareRootUnique(p: real, q: real)
    requires p >= 0.0 && q >= 0.0 && p * p == q * q
    ensures p == q
  {
    if p < q {
      SquareStrictlyIncreasing(p, q);
    } else if q < p {
      SquareStrictlyIncreasing(q, p);
    }
  }

  // ----- Square root, length and normalize --------------------------------

  /** `std::sqrt` cannot be defined over Dafny's reals, so every operation
      that takes a root receives the root function and requires it to be
      exact on the non-negative reals. */
  ghost predicate IsSqrt(sqrt: real -> real) {
    forall x: real :: x >= 0.0 ==> sqrt(x) >= 0.0 && sqrt(x) * sqrt(x) == x
  }

  /** The root of a non-negative number, with its sign. */
  lemma SqrtFacts(sqrt: real -> real, d: real)
    requires IsSqrt(sqrt) && d >= 0.0
    ensures sqrt(d) >= 0.0 && sqrt(d) * sqrt(d) == d
    ensures d == 0.0 ==> sqrt(d) == 0.0
    ensures d > 0.0 ==> sqrt(d) > 0.0
  {
    var r := sqrt(d);
    assert r >= 0.0 && r * r == d;
    if d == 0.0 {
      SquareRootUnique(r, 0.0);
    } else if r == 0.0 {
      ProductWithZero(r, r);
    }
  }

  /** `a.dot(a)` is a sum of squares: never negative, zero only for the zero vector. */
  lemma DotSelf(a: Vec3)
    ensures Dot(a, a) >= 0.0
    ensures a == Zero() ==> Dot(a, a) == 0.0
    ensures a != Zero() ==> Dot(a, a) > 0.0
  {
    SquareNonNegative(a.x);
    SquareNonNegative(a.y);
    SquareNonNegative(a.z);
    if a != Zero() {
      calc {
        Dot(a, a);
        a.x * a.x + a.y * a.y + a.z * a.z;
      > { SumOfSquaresPositive(a.x, a.y, a.z); }
        0.0;
      }
    }
  }

  /** A vector whose dot with itself is positive is not the zero vector. */
  lemma NonZeroBySelfDot(v: Vec3)
    requires Dot(v, v) > 0.0
    ensures v != Zero()
  {
  }

  /** `length()`: `sqrt(x^2 + y^2 + z^2)`, the non-negative root of `v.dot(v)`. */
  function Length(v: Vec3, sqrt: real -> real): (r: real)
    requires IsSqrt(sqrt)
    ensures r >= 0.0 && r * r == Dot(v, v)
  {
    RootOfDotSelf(v, sqrt);
    sqrt(Dot(v, v))
  }

  lemma RootOfDotSelf(v: Vec3, sqrt: real -> real)
    requires IsSqrt(sqrt)
    ensures sqrt(Dot(v, v)) >= 0.0 && sqrt(Dot(v, v)) * sqrt(Dot(v, v)) == Dot(v, v)
  {
    DotSelf(v);
    SqrtFacts(sqrt, Dot(v, v));
  }

  /** Only the zero vector has length zero. */
  lemma LengthZero(v: Vec3, sqrt: real -> real)
    requires IsSqrt(sqrt)
    ensures v == Zero() ==> Length(v, sqrt) == 0.0
    ensures v != Zero() ==> Length(v, sqrt) > 0.0
  {
    DotSelf(v);
    SqrtFacts(sqrt, Dot(v, v));
  }

  /** `normalize()`: the input divided by its length. The source divides by
      zero on the zero vector, so a non-zero input is required. */
  function Normalize(v: Vec3, sqrt: real -> real): (r: Vec3)
    requires IsSqrt(sqrt)
    requires v != Zero()
    ensures Dot(r, r) == 1.0
    ensures Scale(r, Length(v, sqrt)) == v
  {
    var len := Length(v, sqrt);
    LengthZero(v, sqrt);
    DividedByLength(v, len);
    Div(v, len)
  }

  /** Dividing a vector by its length leaves a vector whose dot with itself is one. */
  lemma DividedByLength(v: Vec3, len: real)
    requires len > 0.0 && len * len == Dot(v, v)
    ensures Dot(Div(v, len), Div(v, len)) == 1.0
    ensures Scale(Div(v, len), len) == v
  {
    var r := Div(v, len);
    assert Scale(r, len) == v;
    calc {
      len * (len * Dot(r, r));
      { DotScale(r, r, len); }
      len * Dot(r, Scale(r, len));
      { DotScale(r, Scale(r, len), len); }
      Dot(Scale(r, len), Scale(r, len));
      Dot(v, v);
      len * len;
    }
    CancelPositive(len, len * Dot(r, r), len);
    CancelPositive(len, Dot(r, r), 1.0);
  }

  // ----- Algebraic laws --------------------------------------------------

  /** `+` and `-` act componentwise, so subtracting what was added restores the input. */
  lemma AddSubCancel(a: Vec3, b: Vec3)
    ensures Sub(Add(a, b), b) == a
    ensures Add(Sub(a, b), b) == a
  {
  }

  /** Scalar `/` is scalar `*` by the inverse: every component is scaled alike. */
  lemma DivIsScaleByInverse(a: Vec3, k: real)
    requires k != 0.0
    ensures Div(a, k) == Scale(a, 1.0 / k)
    ensures Scale(Div(a, k), k) == a
  {
  }

  /** Scaling distributes over `-` and `+`, and two scalings compose. */
  lemma ScaleSubDistributes(p: Vec3, q: Vec3, k: real)
    ensures Scale(Sub(p, q), k) == Sub(Scale(p, k), Scale(q, k))
  {
    ComponentsEqual(Scale(Sub(p, q), k), Sub(Scale(p, k), Scale(q, k)));
  }

  lemma ScaleAddVectors(p: Vec3, q: Vec3, k: real)
    ensures Scale(Add(p, q), k) == Add(Scale(p, k), Scale(q, k))
  {
    ComponentsEqual(Scale(Add(p, q), k), Add(Scale(p, k), Scale(q, k)));
  }

  lemma ScaleScale(p: Vec3, k: real, l: real)
    ensures Scale(Scale(p, k), l) == Scale(p, l * k)
  {
    assert p.x * k * l == p.x * (l * k);
    assert p.y * k * l == p.y * (l * k);
    assert p.z * k * l == p.z * (l * k);
  }

  lemma DotSymmetric(a: Vec3, b: Vec3)
    ensures Dot(a, b) == Dot(b, a)
  {
  }

  /** Dot is linear in a scaled argument. */
  lemma DotScale(a: Vec3, b: Vec3, k: real)
    ensures Dot(Scale(a, k), b) == k * Dot(a, b)
    ensures Dot(a, Scale(b, k)) == k * Dot(a, b)
  {
  }

  /** The cross product is orthogonal to both operands. */
  lemma CrossOrthogonal(a: Vec3, b: Vec3)
    ensures Dot(Cross(a, b), a) == 0.0
    ensures Dot(Cross(a, b), b) == 0.0
  {
  }

  lemma CrossAntiCommutative(a: Vec3, b: Vec3)
    ensures Cross(a, b) == Scale(Cross(b, a), -1.0)
  {
  }

  /** The scalar triple product is invariant under cyclic rotation. */
  lemma TripleProductCyclic(a: Vec3, b: Vec3, c: Vec3)
    ensures Dot(a, Cross(b, c)) == Dot(b, Cross(c, a)) == Dot(c, Cross(a, b))
  {
    DotCrossExpanded(a, b, c);
    DotCrossExpanded(b, c, a);
    DotCrossExpanded(c, a, b);
    TripleRotation(a.x, a.y, a.z, b.x, b.y, b.z, c.x, c.y, c.z);
    TripleRotation(b.x, b.y, b.z, c.x, c.y, c.z, a.x, a.y, a.z);
  }

  lemma DotCrossExpanded(a: Vec3, b: Vec3, c: Vec3)
    ensures Dot(a, Cross(b, c))
         == a.x * (b.y * c.z - b.z * c.y) + a.y * (b.z * c.x - b.x * c.z) + a.z * (b.x * c.y - b.y * c.x)
  {
  }

  /** The determinant expansion behind `TripleProductCyclic`. */
  lemma TripleRotation(a1: real, a2: real, a3: real, b1: real, b2: real, b3: real,
                       c1: real, c2: real, c3: real)
    ensures a1 * (b2 * c3 - b3 * c2) + a2 * (b3 * c1 - b1 * c3) + a3 * (b1 * c2 - b2 * c1)
         == b1 * (c2 * a3 - c3 * a2) + b2 * (c3 * a1 - c1 * a3) + b3 * (c1 * a2 - c2 * a1)
  {
    var t := a1 * b2 * c3 + a2 * b3 * c1 + a3 * b1 * c2 - a1 * b3 * c2 - a2 * b1 * c3 - a3 * b2 * c1;
    assert a1 * (b2 * c3 - b3 * c2) + a2 * (b3 * c1 - b1 * c3) + a3 * (b1 * c2 - b2 * c1) == t;
    assert b1 * (c2 * a3 - c3 * a2) + b2 * (c3 * a1 - c1 * a3) + b3 * (c1 * a2 - c2 * a1) == t;
  }

  /** The result of `normalize()` has length one and is a positive multiple of the input. */
  lemma NormalizeUnitPositiveMultiple(v: Vec3, sqrt: real -> real)
    requires IsSqrt(sqrt)
    requires v != Zero()
    ensures Length(Normalize(v, sqrt), sqrt) == 1.0
    ensures exists k: real :: k > 0.0 && Normalize(v, sqrt) == Scale(v, k)
  {
    var n := Normalize(v, sqrt);
    var len := Length(v, sqrt);
    SquareRootUnique(Length(n, sqrt), 1.0);
    assert n == Scale(v, 1.0 / len);
  }

  /** Scaling by a positive factor scales the length by that factor. */
  lemma LengthScale(v: Vec3, k: real, sqrt: real -> real)
    requires IsSqrt(sqrt) && k > 0.0
    ensures Length(Scale(v, k), sqrt) == k * Length(v, sqrt)
  {
    var w := Scale(v, k);
    var lv, lw := Length(v, sqrt), Length(w, sqrt);
    calc {
      lw * lw;
      Dot(w, w);
      { DotScale(v, w, k); }
      k * Dot(v, w);
      { DotScale(v, v, k); }
      k * (k * Dot(v, v));
      k * (k * (lv * lv));
      (k * lv) * (k * lv);
    }
    SquareRootUnique(lw, k * lv);
  }

  /** A positive multiple of a non-zero vector is non-zero. */
  lemma ScaleNonZero(v: Vec3, k: real)
    requires v != Zero() && k > 0.0
    ensures Scale(v, k) != Zero()
  {
    if v.x != 0.0 { assert Scale(v, k).x != 0.0; }
    else if v.y != 0.0 { assert Scale(v, k).y != 0.0; }
    else { assert Scale(v, k).z != 0.0; }
  }

  /** Scaling numerator and divisor by the same factor cancels. */
  lemma DivScaleCancel(v: Vec3, k: real, l: real)
    requires k != 0.0 && l != 0.0
    ensures Div(Scale(v, k), k * l) == Div(v, l)
  {
    QuotientCancel(v.x, k, l);
    QuotientCancel(v.y, k, l);
    QuotientCancel(v.z, k, l);
    ComponentsEqual(Div(Scale(v, k), k * l), Div(v, l));
  }

  lemma QuotientCancel(x: real, k: real, l: real)
    requires k != 0.0 && l != 0.0
    ensures (x * k) / (k * l) == x / l
  {
    assert (x * k) / (k * l) * (k * l) == x * k;
  }

  /** Normalizing a positive multiple of a vector gives the same unit vector. */
  lemma NormalizeScaleInvariant(v: Vec3, k: real, sqrt: real -> real)
    requires IsSqrt(sqrt)
    requires v != Zero() && k > 0.0
    ensures Scale(v, k) != Zero()
    ensures Normalize(Scale(v, k), sqrt) == Normalize(v, sqrt)
  {
    ScaleNonZero(v, k);
    LengthZero(v, sqrt);
    var lv := Length(v, sqrt);
    calc {
      Normalize(Scale(v, k), sqrt);
      Div(Scale(v, k), Length(Scale(v, k), sqrt));
      { LengthScale(v, k, sqrt);
        assert Length(Scale(v, k), sqrt) == k * lv; }
      Div(Scale(v, k), k * lv);
      { DivScaleCancel(v, k, lv); }
      Div(v, lv);
      Normalize(v, sqrt);
    }
  }

  /** `normalize()` is idempotent. */
  lemma NormalizeIdempotent(v: Vec3, sqrt: real -> real)
    requires IsSqrt(sqrt)
    requires v != Zero()
    ensures Normalize(v, sqrt) != Zero()
    ensures Normalize(Normalize(v, sqrt), sqrt) == Normalize(v, sqrt)
  {
    var n := Normalize(v, sqrt);
    DotSelf(n);
    SquareRootUnique(Length(n, sqrt), 1.0);
  }

  // ----- Colors: Vec3T<int> ---------------------------------------------

  /** C++ `int` division by a positive divisor: rounds toward zero, so a
      negative numerator rounds up (Dafny's `/` is Euclidean and would round
      it down). */
  function TruncDiv(n: int, d: int): (q: int)
    requires d > 0
    ensures n >= 0 ==> 0 <= q * d <= n < q * d + d
    ensures n < 0 ==> q * d - d < n <= q * d <= 0
  {
    if n >= 0 then
      EuclideanBounds(n, d);
      n / d
    else
      EuclideanBounds(-n, d);
      -((-n) / d)
  }

  lemma EuclideanBounds(m: int, d: int)
    requires m >= 0 && d > 0
    ensures 0 <= (m / d) * d <= m < (m / d) * d + d
  {
  }

  /** `Color / k`: truncating division of every channel. */
  function ColorDiv(c: Color, k: int): Color
    requires k > 0
  {
    Color(TruncDiv(c.x, k), TruncDiv(c.y, k), TruncDiv(c.z, k))
  }
}
