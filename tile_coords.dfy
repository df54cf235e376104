/** Pixel coordinate to tile index / in-tile offset arithmetic of the tile
    header: the GEGL_REMAINDER, gegl_tile_offset and gegl_tile_index macros.
    The macros are written with C's `/` and `%`, which truncate toward zero;
    Dafny's operators are Euclidean, so C division is spelled out here. */
module TileCoords {

  /** C integer division for a positive divisor: rounds toward zero. */
  function CDiv(a: int, b: int): int
    requires b > 0
  {
    if a >= 0 then a / b else -((-a) / b)
  }

  /** C remainder for a positive divisor: takes the sign of the dividend. */
  function CRem(a: int, b: int): int
    requires b > 0
  {
    if a >= 0 then a % b else -((-a) % b)
  }

  lemma DivModFacts(a: int, b: int)
    requires b > 0
    ensures a == (a / b) * b + a % b && 0 <= a % b < b
  {
  }

  lemma MulLe(a: int, b: int, s: int)
    requires a <= b && s > 0
    ensures a * s <= b * s
  {
  }

  lemma SmallMultiple(d: int, s: int)
    requires s > 0 && -s < d * s < s
    ensures d == 0
  {
    if d > 0 {
      MulLe(1, d, s);
    } else if d < 0 {
      MulLe(d, -1, s);
    }
  }

  /** Euclidean division is the only split of c into q * s + r with 0 <= r < s. */
  lemma EuclidUnique(c: int, s: int, q: int, r: int)
    requires s > 0 && 0 <= r < s && q * s + r == c
    ensures q == c / s && r == c % s
  {
    DivModFacts(c, s);
    assert (c / s - q) * s == r - c % s;
    SmallMultiple(c / s - q, s);
  }

  /** C division and remainder: a == CDiv(a, b) * b + CRem(a, b), with the
      remainder carrying the sign of the dividend. */
  lemma CDivision(a: int, b: int)
    requires b > 0
    ensures a == CDiv(a, b) * b + CRem(a, b)
    ensures a < 0 ==> -b < CRem(a, b) <= 0
  {
    if a < 0 {
      DivModFacts(-a, b);
      assert CDiv(a, b) * b == -(((-a) / b) * b);
    }
  }

  /** GEGL_REMAINDER(dividend, divisor). */
  function Remainder(dividend: int, divisor: int): int
    requires divisor > 0
  {
    if dividend < 0 then divisor - 1 - CRem(-(dividend + 1), divisor)
    else CRem(dividend, divisor)
  }

  /** gegl_tile_offset(coordinate, stride). */
  function TileOffset(coordinate: int, stride: int): int
    requires stride > 0
  {
    Remainder(coordinate, stride)
  }

  /** gegl_tile_index(coordinate, stride). */
  function TileIndex(coordinate: int, stride: int): int
    requires stride > 0
  {
    if coordinate >= 0 then CDiv(coordinate, stride)
    else CDiv(coordinate + 1, stride) - 1
  }

  /** The macros compute floor division and its non-negative remainder, which
      for a positive stride are Dafny's Euclidean `/` and `%`. */
  lemma IndexOffsetEuclid(c: int, s: int)
    requires s > 0
    ensures TileIndex(c, s) == c / s && TileOffset(c, s) == c % s
  {
    if c < 0 {
      var m := -(c + 1);
      DivModFacts(m, s);
      var q, r := -(m / s) - 1, s - 1 - m % s;
      assert TileIndex(c, s) == q && TileOffset(c, s) == r;
      assert q * s == -((m / s) * s) - s;
      EuclidUnique(c, s, q, r);
    }
  }

  /** Index and offset split a coordinate: index * stride + offset == coordinate,
      and the offset is a non-negative remainder, also for negative coordinates. */
  lemma Decompose(c: int, s: int)
    requires s > 0
    ensures TileIndex(c, s) * s + TileOffset(c, s) == c
    ensures 0 <= TileOffset(c, s) < s
  {
    IndexOffsetEuclid(c, s);
    DivModFacts(c, s);
  }

  /** The tile index is the floor of coordinate / stride: the largest q with
      q * stride <= coordinate. */
  lemma IndexIsFloor(c: int, s: int)
    requires s > 0
    ensures TileIndex(c, s) * s <= c < TileIndex(c, s) * s + s
  {
    Decompose(c, s);
  }

  /** Any split q * s + r == c with 0 <= r < s is the one the macros compute. */
  lemma DecomposeUnique(c: int, s: int, q: int, r: int)
    requires s > 0 && 0 <= r < s && q * s + r == c
    ensures TileIndex(c, s) == q && TileOffset(c, s) == r
  {
    IndexOffsetEuclid(c, s);
    EuclidUnique(c, s, q, r);
  }

  /** For negative coordinates the index is floor(c / s) although the macro is
      built from C truncating division of c + 1; plain C division c / s would
      differ exactly when s does not divide c. */
  lemma NegativeIndexIsFloor(c: int, s: int)
    requires s > 0 && c < 0
    ensures TileIndex(c, s) == c / s
    ensures TileIndex(c, s) != CDiv(c, s) <==> c % s != 0
  {
    IndexOffsetEuclid(c, s);
    DivModFacts(c, s);
    DivModFacts(-c, s);
    if c % s == 0 {
      EuclidUnique(-c, s, -(c / s), 0);
    } else {
      assert CDiv(c, s) * s == -(((-c) / s) * s);
    }
  }

  /** For non-negative coordinates the macros are plain C division and remainder. */
  lemma NonNegativeCoordinates(c: int, s: int)
    requires s > 0 && c >= 0
    ensures TileIndex(c, s) == CDiv(c, s) == c / s
    ensures TileOffset(c, s) == CRem(c, s) == c % s
  {
    IndexOffsetEuclid(c, s);
  }

  /** One stride further is the next tile, at the same offset. */
  lemma ShiftByStride(c: int, s: int)
    requires s > 0
    ensures TileIndex(c + s, s) == TileIndex(c, s) + 1
    ensures TileOffset(c + s, s) == TileOffset(c, s)
  {
    Decompose(c, s);
    assert (TileIndex(c, s) + 1) * s == TileIndex(c, s) * s + s;
    DecomposeUnique(c + s, s, TileIndex(c, s) + 1, TileOffset(c, s));
  }

  /** 2^k. */
  function Pow2(k: nat): (p: int)
    ensures p >= 1
  {
    if k == 0 then 1 else 2 * Pow2(k - 1)
  }

  /** Dividing by a and then by b is dividing by a * b, for x >= 0. */
  lemma DivDiv(x: int, a: int, b: int)
    requires x >= 0 && a > 0 && b > 0
    ensures a * b > 0 && (x / a) / b == x / (a * b)
  {
    DivModFacts(x, a);
    var q, r := x / a, x % a;
    DivModFacts(q, b);
    var q2, r2 := q / b, q % b;
    assert q * a == q2 * (a * b) + r2 * a by {
      assert q * a == (q2 * b + r2) * a;
    }
    MulLe(r2, b - 1, a);
    assert (b - 1) * a == a * b - a;
    EuclidUnique(x, a * b, q2, r2 * a + r);
  }

  /** C division composes: (x / a) / b == x / (a * b), also for negative x. */
  lemma CDivCompose(x: int, a: int, b: int)
    requires a > 0 && b > 0
    ensures a * b > 0 && CDiv(CDiv(x, a), b) == CDiv(x, a * b)
  {
    if x >= 0 {
      DivDiv(x, a, b);
    } else {
      var m := -x;
      DivDiv(m, a, b);
      var n := m / a;
      assert CDiv(x, a) == -n;
      assert n >= 0;
      assert CDiv(-n, b) == -(n / b);
      assert CDiv(x, a * b) == -(m / (a * b));
    }
  }
}
