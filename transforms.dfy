/**
 * The 4x4 transform algebra of transform.h. A `Mat4` is a value of
 * sixteen reals named by row and column; the matrices are row-major with
 * the translation offset in the fourth row, so transforms compose as
 * scale * rotation * translation. `mat4_rotation` needs sine and cosine,
 * so `Transform` receives the rotation matrix from its caller.
 */
module Transforms {

  datatype Mat4 = Mat4(
    e11: real, e12: real, e13: real, e14: real,
    e21: real, e22: real, e23: real, e24: real,
    e31: real, e32: real, e33: real, e34: real,
    e41: real, e42: real, e43: real, e44: real)

  /** Lines 24-29, `MAT4_IDENTITY`. */
  const Identity := Mat4(
    1.0, 0.0, 0.0, 0.0,
    0.0, 1.0, 0.0, 0.0,
    0.0, 0.0, 1.0, 0.0,
    0.0, 0.0, 0.0, 1.0)

  /** A row of four entries times a column of four entries. */
  function Dot4(r1: real, r2: real, r3: real, r4: real, c1: real, c2: real, c3: real, c4: real): real
  {
    r1 * c1 + r2 * c2 + r3 * c3 + r4 * c4
  }

  /** Lines 31-56, `mat4_multiply`: entry (i, j) is row i of a times column j of b. */
  function Multiply(a: Mat4, b: Mat4): Mat4
  {
    Mat4(
      Dot4(a.e11, a.e12, a.e13, a.e14, b.e11, b.e21, b.e31, b.e41),
      Dot4(a.e11, a.e12, a.e13, a.e14, b.e12, b.e22, b.e32, b.e42),
      Dot4(a.e11, a.e12, a.e13, a.e14, b.e13, b.e23, b.e33, b.e43),
      Dot4(a.e11, a.e12, a.e13, a.e14, b.e14, b.e24, b.e34, b.e44),

      Dot4(a.e21, a.e22, a.e23, a.e24, b.e11, b.e21, b.e31, b.e41),
      Dot4(a.e21, a.e22, a.e23, a.e24, b.e12, b.e22, b.e32, b.e42),
      Dot4(a.e21, a.e22, a.e23, a.e24, b.e13, b.e23, b.e33, b.e43),
      Dot4(a.e21, a.e22, a.e23, a.e24, b.e14, b.e24, b.e34, b.e44),

      Dot4(a.e31, a.e32, a.e33, a.e34, b.e11, b.e21, b.e31, b.e41),
      Dot4(a.e31, a.e32, a.e33, a.e34, b.e12, b.e22, b.e32, b.e42),
      Dot4(a.e31, a.e32, a.e33, a.e34, b.e13, b.e23, b.e33, b.e43),
      Dot4(a.e31, a.e32, a.e33, a.e34, b.e14, b.e24, b.e34, b.e44),

      Dot4(a.e41, a.e42, a.e43, a.e44, b.e11, b.e21, b.e31, b.e41),
      Dot4(a.e41, a.e42, a.e43, a.e44, b.e12, b.e22, b.e32, b.e42),
      Dot4(a.e41, a.e42, a.e43, a.e44, b.e13, b.e23, b.e33, b.e43),
      Dot4(a.e41, a.e42, a.e43, a.e44, b.e14, b.e24, b.e34, b.e44))
  }

  /** Lines 141-156, `mat4_translation`: the offset sits in the fourth row. */
  function Translation(x: real, y: real, z: real): Mat4
  {
    Mat4(
      1.0, 0.0, 0.0, 0.0,
      0.0, 1.0, 0.0, 0.0,
      0.0, 0.0, 1.0, 0.0,
      x, y, z, 1.0)
  }

  /** Lines 158-168, `mat4_scale`: the factors on the diagonal. */
  function Scale(x: real, y: real, z: real): Mat4
  {
    Mat4(
      x, 0.0, 0.0, 0.0,
      0.0, y, 0.0, 0.0,
      0.0, 0.0, z, 0.0,
      0.0, 0.0, 0.0, 1.0)
  }

  /**
   * Lines 170-182, `mat4_transform`: the translation is premultiplied by the rotation and
   * the result by the scale. `rotation` stands for `mat4_rotation(rx, ry, rz)`.
   */
  function Transform(px: real, py: real, pz: real, rotation: Mat4, sx: real, sy: real, sz: real): (r: Mat4)
    ensures rotation == Identity ==> r == Mat4(
      sx, 0.0, 0.0, 0.0,
      0.0, sy, 0.0, 0.0,
      0.0, 0.0, sz, 0.0,
      px, py, pz, 1.0)
  {
    var t := Multiply(rotation, Translation(px, py, pz));
    Multiply(Scale(sx, sy, sz), t)
  }

  /** The identity is neutral on both sides of the product. */
  lemma IdentityIsNeutral(m: Mat4)
    ensures Multiply(Identity, m) == m
    ensures Multiply(m, Identity) == m
  {
  }

  /**
   * One entry of a triple product, grouped both ways: row a of the left
   * factor, the 4x4 middle factor b and column c of the right factor.
   */
  lemma RowTimesProduct(a1: real, a2: real, a3: real, a4: real,
                        b11: real, b12: real, b13: real, b14: real,
                        b21: real, b22: real, b23: real, b24: real,
                        b31: real, b32: real, b33: real, b34: real,
                        b41: real, b42: real, b43: real, b44: real,
                        c1: real, c2: real, c3: real, c4: real)
    ensures Dot4(Dot4(a1, a2, a3, a4, b11, b21, b31, b41), Dot4(a1, a2, a3, a4, b12, b22, b32, b42),
                 Dot4(a1, a2, a3, a4, b13, b23, b33, b43), Dot4(a1, a2, a3, a4, b14, b24, b34, b44),
                 c1, c2, c3, c4)
         == Dot4(a1, a2, a3, a4,
                 Dot4(b11, b12, b13, b14, c1, c2, c3, c4), Dot4(b21, b22, b23, b24, c1, c2, c3, c4),
                 Dot4(b31, b32, b33, b34, c1, c2, c3, c4), Dot4(b41, b42, b43, b44, c1, c2, c3, c4))
  {
    DotsOfDot(a1, a2, a3, a4, b11, b12, b13, b14, b21, b22, b23, b24, b31, b32, b33, b34, b41, b42, b43, b44, c1, c2, c3, c4);
    DotOfDots(a1, a2, a3, a4, b11, b12, b13, b14, b21, b22, b23, b24, b31, b32, b33, b34, b41, b42, b43, b44, c1, c2, c3, c4);
  }

  /** A dot product scaled by c: each term of the row picks up the factor c. */
  lemma ScaledDot4(a1: real, a2: real, a3: real, a4: real, b1: real, b2: real, b3: real, b4: real, c: real)
    ensures Dot4(a1, a2, a3, a4, b1, b2, b3, b4) * c == a1 * (b1 * c) + a2 * (b2 * c) + a3 * (b3 * c) + a4 * (b4 * c)
  {
  }

  /** A row a times a column of dot products with c: each entry of a scales its dot product term by term. */
  lemma DotOfDots(a1: real, a2: real, a3: real, a4: real,
                  b11: real, b12: real, b13: real, b14: real,
                  b21: real, b22: real, b23: real, b24: real,
                  b31: real, b32: real, b33: real, b34: real,
                  b41: real, b42: real, b43: real, b44: real,
                  c1: real, c2: real, c3: real, c4: real)
    ensures Dot4(a1, a2, a3, a4,
                 Dot4(b11, b12, b13, b14, c1, c2, c3, c4), Dot4(b21, b22, b23, b24, c1, c2, c3, c4),
                 Dot4(b31, b32, b33, b34, c1, c2, c3, c4), Dot4(b41, b42, b43, b44, c1, c2, c3, c4))
         == (a1 * (b11 * c1) + a2 * (b21 * c1) + a3 * (b31 * c1) + a4 * (b41 * c1)) +
            (a1 * (b12 * c2) + a2 * (b22 * c2) + a3 * (b32 * c2) + a4 * (b42 * c2)) +
            (a1 * (b13 * c3) + a2 * (b23 * c3) + a3 * (b33 * c3) + a4 * (b43 * c3)) +
            (a1 * (b14 * c4) + a2 * (b24 * c4) + a3 * (b34 * c4) + a4 * (b44 * c4))
  {
    var w1, w2 := Dot4(b11, b12, b13, b14, c1, c2, c3, c4), Dot4(b21, b22, b23, b24, c1, c2, c3, c4);
    var w3, w4 := Dot4(b31, b32, b33, b34, c1, c2, c3, c4), Dot4(b41, b42, b43, b44, c1, c2, c3, c4);
    assert a1 * w1 == a1 * (b11 * c1) + a1 * (b12 * c2) + a1 * (b13 * c3) + a1 * (b14 * c4);
    assert a2 * w2 == a2 * (b21 * c1) + a2 * (b22 * c2) + a2 * (b23 * c3) + a2 * (b24 * c4);
    assert a3 * w3 == a3 * (b31 * c1) + a3 * (b32 * c2) + a3 * (b33 * c3) + a3 * (b34 * c4);
    assert a4 * w4 == a4 * (b41 * c1) + a4 * (b42 * c2) + a4 * (b43 * c3) + a4 * (b44 * c4);
    assert Dot4(a1, a2, a3, a4, w1, w2, w3, w4) == a1 * w1 + a2 * w2 + a3 * w3 + a4 * w4;
  }

  /** A row of dot products of a with the columns of b, times c: term by term. */
  lemma DotsOfDot(a1: real, a2: real, a3: real, a4: real,
                  b11: real, b12: real, b13: real, b14: real,
                  b21: real, b22: real, b23: real, b24: real,
                  b31: real, b32: real, b33: real, b34: real,
                  b41: real, b42: real, b43: real, b44: real,
                  c1: real, c2: real, c3: real, c4: real)
    ensures Dot4(Dot4(a1, a2, a3, a4, b11, b21, b31, b41), Dot4(a1, a2, a3, a4, b12, b22, b32, b42),
                 Dot4(a1, a2, a3, a4, b13, b23, b33, b43), Dot4(a1, a2, a3, a4, b14, b24, b34, b44),
                 c1, c2, c3, c4)
         == (a1 * (b11 * c1) + a2 * (b21 * c1) + a3 * (b31 * c1) + a4 * (b41 * c1)) +
            (a1 * (b12 * c2) + a2 * (b22 * c2) + a3 * (b32 * c2) + a4 * (b42 * c2)) +
            (a1 * (b13 * c3) + a2 * (b23 * c3) + a3 * (b33 * c3) + a4 * (b43 * c3)) +
            (a1 * (b14 * c4) + a2 * (b24 * c4) + a3 * (b34 * c4) + a4 * (b44 * c4))
  {
    var u1, u2 := Dot4(a1, a2, a3, a4, b11, b21, b31, b41), Dot4(a1, a2, a3, a4, b12, b22, b32, b42);
    var u3, u4 := Dot4(a1, a2, a3, a4, b13, b23, b33, b43), Dot4(a1, a2, a3, a4, b14, b24, b34, b44);
    ScaledDot4(a1, a2, a3, a4, b11, b21, b31, b41, c1);
    ScaledDot4(a1, a2, a3, a4, b12, b22, b32, b42, c2);
    ScaledDot4(a1, a2, a3, a4, b13, b23, b33, b43, c3);
    ScaledDot4(a1, a2, a3, a4, b14, b24, b34, b44, c4);
    assert Dot4(u1, u2, u3, u4, c1, c2, c3, c4) == u1 * c1 + u2 * c2 + u3 * c3 + u4 * c4;
  }

  /** The product is associative. */
  lemma MultiplyAssociates(a: Mat4, b: Mat4, c: Mat4)
    ensures Multiply(Multiply(a, b), c) == Multiply(a, Multiply(b, c))
  {
    RowTimesProduct(a.e11, a.e12, a.e13, a.e14, b.e11, b.e12, b.e13, b.e14, b.e21, b.e22, b.e23, b.e24, b.e31, b.e32, b.e33, b.e34, b.e41, b.e42, b.e43, b.e44, c.e11, c.e21, c.e31, c.e41);
    RowTimesProduct(a.e11, a.e12, a.e13, a.e14, b.e11, b.e12, b.e13, b.e14, b.e21, b.e22, b.e23, b.e24, b.e31, b.e32, b.e33, b.e34, b.e41, b.e42, b.e43, b.e44, c.e12, c.e22, c.e32, c.e42);
    RowTimesProduct(a.e11, a.e12, a.e13, a.e14, b.e11, b.e12, b.e13, b.e14, b.e21, b.e22, b.e23, b.e24, b.e31, b.e32, b.e33, b.e34, b.e41, b.e42, b.e43, b.e44, c.e13, c.e23, c.e33, c.e43);
    RowTimesProduct(a.e11, a.e12, a.e13, a.e14, b.e11, b.e12, b.e13, b.e14, b.e21, b.e22, b.e23, b.e24, b.e31, b.e32, b.e33, b.e34, b.e41, b.e42, b.e43, b.e44, c.e14, c.e24, c.e34, c.e44);
    RowTimesProduct(a.e21, a.e22, a.e23, a.e24, b.e11, b.e12, b.e13, b.e14, b.e21, b.e22, b.e23, b.e24, b.e31, b.e32, b.e33, b.e34, b.e41, b.e42, b.e43, b.e44, c.e11, c.e21, c.e31, c.e41);
    RowTimesProduct(a.e21, a.e22, a.e23, a.e24, b.e11, b.e12, b.e13, b.e14, b.e21, b.e22, b.e23, b.e24, b.e31, b.e32, b.e33, b.e34, b.e41, b.e42, b.e43, b.e44, c.e12, c.e22, c.e32, c.e42);
    RowTimesProduct(a.e21, a.e22, a.e23, a.e24, b.e11, b.e12, b.e13, b.e14, b.e21, b.e22, b.e23, b.e24, b.e31, b.e32, b.e33, b.e34, b.e41, b.e42, b.e43, b.e44, c.e13, c.e23, c.e33, c.e43);
    RowTimesProduct(a.e21, a.e22, a.e23, a.e24, b.e11, b.e12, b.e13, b.e14, b.e21, b.e22, b.e23, b.e24, b.e31, b.e32, b.e33, b.e34, b.e41, b.e42, b.e43, b.e44, c.e14, c.e24, c.e34, c.e44);
    RowTimesProduct(a.e31, a.e32, a.e33, a.e34, b.e11, b.e12, b.e13, b.e14, b.e21, b.e22, b.e23, b.e24, b.e31, b.e32, b.e33, b.e34, b.e41, b.e42, b.e43, b.e44, c.e11, c.e21, c.e31, c.e41);
    RowTimesProduct(a.e31, a.e32, a.e33, a.e34, b.e11, b.e12, b.e13, b.e14, b.e21, b.e22, b.e23, b.e24, b.e31, b.e32, b.e33, b.e34, b.e41, b.e42, b.e43, b.e44, c.e12, c.e22, c.e32, c.e42);
    RowTimesProduct(a.e31, a.e32, a.e33, a.e34, b.e11, b.e12, b.e13, b.e14, b.e21, b.e22, b.e23, b.e24, b.e31, b.e32, b.e33, b.e34, b.e41, b.e42, b.e43, b.e44, c.e13, c.e23, c.e33, c.e43);
    RowTimesProduct(a.e31, a.e32, a.e33, a.e34, b.e11, b.e12, b.e13, b.e14, b.e21, b.e22, b.e23, b.e24, b.e31, b.e32, b.e33, b.e34, b.e41, b.e42, b.e43, b.e44, c.e14, c.e24, c.e34, c.e44);
    RowTimesProduct(a.e41, a.e42, a.e43, a.e44, b.e11, b.e12, b.e13, b.e14, b.e21, b.e22, b.e23, b.e24, b.e31, b.e32, b.e33, b.e34, b.e41, b.e42, b.e43, b.e44, c.e11, c.e21, c.e31, c.e41);
    RowTimesProduct(a.e41, a.e42, a.e43, a.e44, b.e11, b.e12, b.e13, b.e14, b.e21, b.e22, b.e23, b.e24, b.e31, b.e32, b.e33, b.e34, b.e41, b.e42, b.e43, b.e44, c.e12, c.e22, c.e32, c.e42);
    RowTimesProduct(a.e41, a.e42, a.e43, a.e44, b.e11, b.e12, b.e13, b.e14, b.e21, b.e22, b.e23, b.e24, b.e31, b.e32, b.e33, b.e34, b.e41, b.e42, b.e43, b.e44, c.e13, c.e23, c.e33, c.e43);
    RowTimesProduct(a.e41, a.e42, a.e43, a.e44, b.e11, b.e12, b.e13, b.e14, b.e21, b.e22, b.e23, b.e24, b.e31, b.e32, b.e33, b.e34, b.e41, b.e42, b.e43, b.e44, c.e14, c.e24, c.e34, c.e44);
  }

  /** Scale, rotation and translation compose left to right: S * R * T. */
  lemma TransformIsScaleRotationTranslation(px: real, py: real, pz: real, rotation: Mat4, sx: real, sy: real, sz: real)
    ensures Transform(px, py, pz, rotation, sx, sy, sz)
         == Multiply(Multiply(Scale(sx, sy, sz), rotation), Translation(px, py, pz))
  {
    MultiplyAssociates(Scale(sx, sy, sz), rotation, Translation(px, py, pz));
  }

  /** Translating by zero and scaling by one are the identity. */
  lemma NeutralTransforms()
    ensures Translation(0.0, 0.0, 0.0) == Identity
    ensures Scale(1.0, 1.0, 1.0) == Identity
  {
  }

  /** Two translations compose to the translation by the sum of their offsets. */
  lemma TranslationsCompose(x1: real, y1: real, z1: real, x2: real, y2: real, z2: real)
    ensures Multiply(Translation(x1, y1, z1), Translation(x2, y2, z2)) == Translation(x1 + x2, y1 + y2, z1 + z2)
  {
  }

  /** Two scales compose to the scale by the products of their factors. */
  lemma ScalesCompose(x1: real, y1: real, z1: real, x2: real, y2: real, z2: real)
    ensures Multiply(Scale(x1, y1, z1), Scale(x2, y2, z2)) == Scale(x1 * x2, y1 * y2, z1 * z2)
  {
  }
}
