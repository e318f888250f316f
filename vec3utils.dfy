/** The helpers of vec3.cpp: `colorutils::multiplyColors` and
    `vectorutils::createRandomVectorInHemisphere`. The random vector the
    hemisphere helper draws is a parameter here. */
module VectorUtils {
  import opened Vectors

  // ----- colorutils -------------------------------------------------------

  /** `multiplyColors`: the channelwise product, divided by 255 with C++
      integer division. */
  function MultiplyColors(a: Color, b: Color): Color {
    ColorDiv(Color(a.x * b.x, a.y * b.y, a.z * b.z), 255)
  }

  /** A colour whose channels are all in the byte range 0..255. */
  predicate InByteRange(c: Color) {
    0 <= c.x <= 255 && 0 <= c.y <= 255 && 0 <= c.z <= 255
  }

  /** One channel of `multiplyColors`: on bytes the result is the floor of
      `p * q / 255`, a byte again and no larger than either factor. */
  lemma MultiplyChannel(p: int, q: int)
    requires 0 <= p <= 255 && 0 <= q <= 255
    ensures var r := TruncDiv(p * q, 255);
      r * 255 <= p * q < r * 255 + 255 && 0 <= r <= p && r <= q
  {
    var r := TruncDiv(p * q, 255);
    assert p * q <= p * 255 by { ProductMonotone(p, q, 255); }
    assert p * q <= 255 * q by { ProductMonotone(q, p, 255); }
  }

  lemma ProductMonotone(k: int, a: int, b: int)
    requires k >= 0 && a <= b
    ensures k * a <= k * b
  {
  }

  /** Multiplying two byte colours stays in the byte range and never
      brightens a channel beyond either factor. */
  lemma MultiplyColorsInRange(a: Color, b: Color)
    requires InByteRange(a) && InByteRange(b)
    ensures var r := MultiplyColors(a, b);
      InByteRange(r)
      && r.x <= a.x && r.x <= b.x
      && r.y <= a.y && r.y <= b.y
      && r.z <= a.z && r.z <= b.z
  {
    MultiplyChannel(a.x, b.x);
    MultiplyChannel(a.y, b.y);
    MultiplyChannel(a.z, b.z);
  }

  lemma MultiplyColorsCommutative(a: Color, b: Color)
    ensures MultiplyColors(a, b) == MultiplyColors(b, a)
  {
    assert a.x * b.x == b.x * a.x;
    assert a.y * b.y == b.y * a.y;
    assert a.z * b.z == b.z * a.z;
  }

  /** Full white (255, 255, 255) is the identity of `multiplyColors` for
      every colour, negative channels included: `255 * c / 255` is exact. */
  lemma MultiplyByWhite(c: Color)
    ensures MultiplyColors(c, Color(255, 255, 255)) == c
  {
    ExactDivision(c.x);
    ExactDivision(c.y);
    ExactDivision(c.z);
  }

  lemma ExactDivision(n: int)
    ensures TruncDiv(n * 255, 255) == n
  {
  }

  /** Black (0, 0, 0) absorbs every colour. */
  lemma MultiplyByBlack(c: Color)
    ensures MultiplyColors(c, Color(0, 0, 0)) == Color(0, 0, 0)
  {
  }

  // ----- vectorutils ------------------------------------------------------

  /** `createRandomVectorInHemisphere(other)`: `sample` is the vector the
      source draws with `randomVector(-1, 1)`. Both vectors are normalized;
      the sample is flipped when it points away from `other`. Normalizing
      divides by the length, so neither may be the zero vector. */
  function RandomVectorInHemisphere(other: Vec3, sample: Vec3, sqrt: real -> real): (r: Vec3)
    requires IsSqrt(sqrt)
    requires other != Zero() && sample != Zero()
    ensures Dot(r, r) == 1.0
    ensures r == Normalize(sample, sqrt) || r == Scale(Normalize(sample, sqrt), -1.0)
    ensures Dot(Normalize(other, sqrt), r) >= 0.0
    ensures Dot(Normalize(other, sqrt), r) > 0.0 <==> Dot(other, sample) != 0.0
  {
    var n := Normalize(other, sqrt);
    var s := Normalize(sample, sqrt);
    NormalizedDotSign(other, sample, sqrt);
    FlipTowards(n, s);
    if Dot(n, s) < 0.0 then Scale(s, -1.0) else s
  }

  /** The flip of `createRandomVectorInHemisphere`: of a unit vector `s` and
      its negation, the one kept has a non-negative dot with `n`, positive
      unless `s` is orthogonal to `n`, and is a unit vector still. */
  lemma FlipTowards(n: Vec3, s: Vec3)
    requires Dot(s, s) == 1.0
    ensures var r := if Dot(n, s) < 0.0 then Scale(s, -1.0) else s;
      Dot(r, r) == 1.0 && Dot(n, r) >= 0.0 && (Dot(n, r) > 0.0 <==> Dot(n, s) != 0.0)
  {
    var m := Scale(s, -1.0);
    DotScale(n, s, -1.0);
    assert Dot(n, m) == -Dot(n, s);
    DotScale(s, s, -1.0);
    DotScale(s, m, -1.0);
    assert Dot(m, m) == -Dot(s, m) == Dot(s, s);
  }

  /** Normalizing both operands keeps the sign of their dot product. */
  lemma NormalizedDotSign(a: Vec3, b: Vec3, sqrt: real -> real)
    requires IsSqrt(sqrt)
    requires a != Zero() && b != Zero()
    ensures Dot(a, b) > 0.0 <==> Dot(Normalize(a, sqrt), Normalize(b, sqrt)) > 0.0
    ensures Dot(a, b) < 0.0 <==> Dot(Normalize(a, sqrt), Normalize(b, sqrt)) < 0.0
  {
    var la, lb := Length(a, sqrt), Length(b, sqrt);
    LengthZero(a, sqrt);
    LengthZero(b, sqrt);
    DivIsScaleByInverse(a, la);
    DivIsScaleByInverse(b, lb);
    var p, q := 1.0 / la, 1.0 / lb;
    var d := Dot(a, b);
    calc {
      Dot(Normalize(a, sqrt), Normalize(b, sqrt));
      Dot(Scale(a, p), Scale(b, q));
      { DotScale(a, Scale(b, q), p);
        assert Dot(Scale(a, p), Scale(b, q)) == p * Dot(a, Scale(b, q)); }
      p * Dot(a, Scale(b, q));
      { DotScale(a, b, q); }
      p * (q * d);
    }
    PositiveFactorSign(q, d);
    PositiveFactorSign(p, q * d);
  }

  lemma PositiveFactorSign(p: real, d: real)
    requires p > 0.0
    ensures d > 0.0 <==> p * d > 0.0
    ensures d < 0.0 <==> p * d < 0.0
  {
  }

  /** When the sample is orthogonal to `other` the flipped or unflipped
      sample is orthogonal too: the source's `assert(other.dot(randomVec) > 0)`
      then fails. */
  lemma HemisphereOrthogonalSample(sqrt: real -> real)
    requires IsSqrt(sqrt)
    ensures Dot(Normalize(Vec3(0.0, 0.0, 1.0), sqrt),
                RandomVectorInHemisphere(Vec3(0.0, 0.0, 1.0), Vec3(1.0, 0.0, 0.0), sqrt)) == 0.0
  {
  }
}
