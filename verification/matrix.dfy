/** 5x5 homogeneous colour matrices acting on (R, G, B, A, 1), with the
    primitive algebra of the content script: identity, product, sum,
    application to a colour, and the 4x5 row-major serialisation used as the
    `values` of an feColorMatrix primitive. Arithmetic is exact (`real`). */
module ColorMatrix {

  /** Rows (and columns) of a colour matrix: R, G, B, alpha, homogeneous 1. */
  const N: nat := 5

  /** Length of a serialised 4x5 coefficient list. */
  const SvgLength: nat := 20

  type Grid = seq<seq<real>>

  /** `x` has N rows, each of width `w`. */
  predicate IsGrid(x: Grid, w: nat) {
    |x| == N && forall r :: 0 <= r < N ==> |x[r]| == w
  }

  /** A 5x5 colour matrix. */
  predicate IsMatrix(x: Grid) {
    IsGrid(x, N)
  }

  /** N rows of one common width (the right operand of a product). */
  predicate IsRect(x: Grid) {
    |x| == N && IsGrid(x, |x[0]|)
  }

  function Width(x: Grid): nat
    requires |x| == N
  {
    |x[0]|
  }

  function Abs(x: real): real {
    if x < 0.0 then -x else x
  }

  /** Row 3 leaves alpha alone and row 4 keeps the homogeneous term: the
      shape of every matrix the engine builds. */
  predicate IsAffine(m: Grid) {
    && IsMatrix(m)
    && m[3] == [0.0, 0.0, 0.0, 1.0, 0.0]
    && m[4] == [0.0, 0.0, 0.0, 0.0, 1.0]
  }

  /** m has zeros off the diagonal: every channel is only scaled. */
  predicate IsDiagonal(m: Grid)
    requires IsMatrix(m)
  {
    forall i, j :: 0 <= i < N && 0 <= j < N && i != j ==> m[i][j] == 0.0
  }

  function Identity(): (r: Grid)
    ensures IsAffine(r)
  {
    [
      [1.0, 0.0, 0.0, 0.0, 0.0],
      [0.0, 1.0, 0.0, 0.0, 0.0],
      [0.0, 0.0, 1.0, 0.0, 0.0],
      [0.0, 0.0, 0.0, 1.0, 0.0],
      [0.0, 0.0, 0.0, 0.0, 1.0]
    ]
  }

  /** Inner product of two 5-vectors, summed from index 0 upwards. */
  function Dot(u: seq<real>, v: seq<real>): real
    requires |u| == N && |v| == N
  {
    PartialDot(u, v, N)
  }

  /** The sum of the first n coordinate products. */
  function PartialDot(u: seq<real>, v: seq<real>, n: nat): real
    requires n <= |u| && n <= |v|
  {
    if n == 0 then 0.0 else PartialDot(u, v, n - 1) + u[n - 1] * v[n - 1]
  }

  /** The five products of `Dot` spelled out. */
  lemma DotExplicit(u: seq<real>, v: seq<real>)
    requires |u| == N && |v| == N
    ensures Dot(u, v) == u[0] * v[0] + u[1] * v[1] + u[2] * v[2] + u[3] * v[3] + u[4] * v[4]
  {
    assert PartialDot(u, v, 1) == u[0] * v[0];
    assert PartialDot(u, v, 2) == PartialDot(u, v, 1) + u[1] * v[1];
    assert PartialDot(u, v, 3) == PartialDot(u, v, 2) + u[2] * v[2];
    assert PartialDot(u, v, 4) == PartialDot(u, v, 3) + u[3] * v[3];
  }

  /** `DotExplicit` for a vector given by its five coordinates. */
  lemma DotOfFive(x0: real, x1: real, x2: real, x3: real, x4: real, c: seq<real>)
    requires |c| == N
    ensures Dot([x0, x1, x2, x3, x4], c) == x0 * c[0] + x1 * c[1] + x2 * c[2] + x3 * c[3] + x4 * c[4]
  {
    DotExplicit([x0, x1, x2, x3, x4], c);
  }

  /** `DotExplicit` for every row of m against c. */
  lemma DotRowsExplicit(m: Grid, c: seq<real>)
    requires IsMatrix(m) && |c| == N
    ensures forall k :: 0 <= k < N ==>
      Dot(m[k], c) == m[k][0] * c[0] + m[k][1] * c[1] + m[k][2] * c[2] + m[k][3] * c[3] + m[k][4] * c[4]
  {
    forall k | 0 <= k < N
      ensures Dot(m[k], c) == m[k][0] * c[0] + m[k][1] * c[1] + m[k][2] * c[2] + m[k][3] * c[3] + m[k][4] * c[4]
    {
      DotExplicit(m[k], c);
    }
  }

  function Column(x: Grid, j: nat): (c: seq<real>)
    requires |x| == N && forall r :: 0 <= r < N ==> j < |x[r]|
    ensures |c| == N && forall r :: 0 <= r < N ==> c[r] == x[r][j]
  {
    [x[0][j], x[1][j], x[2][j], x[3][j], x[4][j]]
  }

  /** The matrix product a * b. The colour pipeline multiplies 5x5 matrices;
      the right operand may be any N-row grid, which the inverse's proof uses
      for the 5x10 augmented matrix. */
  function Multiply(a: Grid, b: Grid): (r: Grid)
    requires IsMatrix(a) && IsRect(b)
    ensures IsGrid(r, Width(b))
    ensures forall i, j :: 0 <= i < N && 0 <= j < Width(b) ==> r[i][j] == Dot(a[i], Column(b, j))
  {
    seq(N, i requires 0 <= i < N => seq(Width(b), j requires 0 <= j < Width(b) => Dot(a[i], Column(b, j))))
  }

  function Add(a: Grid, b: Grid): (r: Grid)
    requires IsMatrix(a) && IsMatrix(b)
    ensures IsMatrix(r)
  {
    seq(N, i requires 0 <= i < N => seq(N, j requires 0 <= j < N => a[i][j] + b[i][j]))
  }

  /** The colour (r, g, b, a) in homogeneous form. */
  function Colour(r: real, g: real, b: real, a: real): seq<real> {
    [r, g, b, a, 1.0]
  }

  predicate IsColour(c: seq<real>) {
    |c| == N && c[4] == 1.0
  }

  /** A grey: equal red, green and blue. */
  predicate IsNeutral(c: seq<real>) {
    IsColour(c) && c[0] == c[1] == c[2]
  }

  /** The colour a matrix maps `c` to. */
  function Apply(m: Grid, c: seq<real>): (r: seq<real>)
    requires IsMatrix(m) && |c| == N
    ensures |r| == N && forall i :: 0 <= i < N ==> r[i] == Dot(m[i], c)
  {
    seq(N, i requires 0 <= i < N => Dot(m[i], c))
  }

  /** `Apply(m, c)` is the colour (r, g, b, a) when its coordinates are. */
  lemma ApplyGivesColour(m: Grid, c: seq<real>, r: real, g: real, b: real, a: real)
    requires IsMatrix(m) && |c| == N
    requires Dot(m[0], c) == r && Dot(m[1], c) == g && Dot(m[2], c) == b
    requires Dot(m[3], c) == a && Dot(m[4], c) == 1.0
    ensures Apply(m, c) == Colour(r, g, b, a)
  {
    var x := Apply(m, c);
    assert x[0] == r && x[1] == g && x[2] == b && x[3] == a && x[4] == 1.0;
  }

  /** `matrixToSVG`: rows 0..3 in row-major order; row 4 is dropped. */
  function ToSvg(m: Grid): (v: seq<real>)
    requires IsMatrix(m)
    ensures |v| == SvgLength
    ensures forall i, j :: 0 <= i < 4 && 0 <= j < N ==> v[N * i + j] == m[i][j]
  {
    m[0] + m[1] + m[2] + m[3]
  }

  /** Reads a 4x5 coefficient list back as a 5x5 matrix with the homogeneous
      row restored. */
  function FromSvg(v: seq<real>): (m: Grid)
    requires |v| == SvgLength
    ensures IsMatrix(m) && m[4] == Identity()[4]
  {
    [v[0..5], v[5..10], v[10..15], v[15..20], [0.0, 0.0, 0.0, 0.0, 1.0]]
  }

  // ---------------------------------------------------------------------
  // Serialisation round trips

  lemma FromSvgToSvg(m: Grid)
    requires IsMatrix(m) && m[4] == Identity()[4]
    ensures FromSvg(ToSvg(m)) == m
  {
    var v := ToSvg(m);
    assert v[0..5] == m[0] && v[5..10] == m[1] && v[10..15] == m[2] && v[15..20] == m[3];
  }

  lemma ToSvgFromSvg(v: seq<real>)
    requires |v| == SvgLength
    ensures ToSvg(FromSvg(v)) == v
  {
    assert v == v[0..5] + v[5..10] + v[10..15] + v[15..20];
  }

  // ---------------------------------------------------------------------
  // Algebra

  lemma MultiplyIdentityLeft(m: Grid)
    requires IsRect(m)
    ensures Multiply(Identity(), m) == m
  {
    var p := Multiply(Identity(), m);
    forall i, j | 0 <= i < N && 0 <= j < Width(m)
      ensures p[i][j] == m[i][j]
    {
      var c := Column(m, j);
      assert p[i][j] == Dot(Identity()[i], c);
      DotExplicit(Identity()[i], c);
    }
    forall i | 0 <= i < N
      ensures p[i] == m[i]
    {
    }
  }

  lemma MultiplyIdentityRight(m: Grid)
    requires IsMatrix(m)
    ensures Multiply(m, Identity()) == m
  {
    var p := Multiply(m, Identity());
    forall i, j | 0 <= i < N && 0 <= j < N
      ensures p[i][j] == m[i][j]
    {
      var c := Column(Identity(), j);
      assert p[i][j] == Dot(m[i], c);
      DotExplicit(m[i], c);
    }
    forall i | 0 <= i < N
      ensures p[i] == m[i]
    {
    }
  }

  /** Multiplying two matrices that leave alpha and the homogeneous term alone
      gives one that does too. */
  lemma MultiplyKeepsAffine(a: Grid, b: Grid)
    requires IsAffine(a) && IsAffine(b)
    ensures IsAffine(Multiply(a, b))
  {
    var p := Multiply(a, b);
    forall j | 0 <= j < N
      ensures p[3][j] == b[3][j] && p[4][j] == b[4][j]
    {
      assert p[3][j] == Dot(a[3], Column(b, j));
      assert p[4][j] == Dot(a[4], Column(b, j));
      DotExplicit(a[3], Column(b, j));
      DotExplicit(a[4], Column(b, j));
    }
  }

  /** Inner product of a vector supported at i with one supported at j. */
  lemma DotOfSupported(u: seq<real>, v: seq<real>, i: nat, j: nat)
    requires |u| == N && |v| == N && i < N && j < N
    requires forall k :: 0 <= k < N && k != i ==> u[k] == 0.0
    requires forall k :: 0 <= k < N && k != j ==> v[k] == 0.0
    ensures Dot(u, v) == if i == j then u[i] * v[i] else 0.0
  {
    DotExplicit(u, v);
    assert u[0] * v[0] == if i == 0 && j == 0 then u[i] * v[i] else 0.0;
    assert u[1] * v[1] == if i == 1 && j == 1 then u[i] * v[i] else 0.0;
    assert u[2] * v[2] == if i == 2 && j == 2 then u[i] * v[i] else 0.0;
    assert u[3] * v[3] == if i == 3 && j == 3 then u[i] * v[i] else 0.0;
    assert u[4] * v[4] == if i == 4 && j == 4 then u[i] * v[i] else 0.0;
  }

  /** Diagonal matrices multiply entry by entry on the diagonal. */
  lemma MultiplyDiagonal(a: Grid, b: Grid)
    requires IsMatrix(a) && IsMatrix(b) && IsDiagonal(a) && IsDiagonal(b)
    ensures IsDiagonal(Multiply(a, b))
    ensures forall k :: 0 <= k < N ==> Multiply(a, b)[k][k] == a[k][k] * b[k][k]
  {
    var p := Multiply(a, b);
    forall i, j | 0 <= i < N && 0 <= j < N
      ensures p[i][j] == if i == j then a[i][i] * b[i][i] else 0.0
    {
      var col := Column(b, j);
      DotOfSupported(a[i], col, i, j);
    }
  }

  /** The 25 products u[k] * b[k][j] * c[j] that both sides of
      `ApplyMultiply` add up, row k and column j. */
  function Products(u: seq<real>, b: Grid, c: seq<real>): (g: Grid)
    requires |u| == N && IsMatrix(b) && |c| == N
    ensures IsMatrix(g)
  {
    seq(N, k requires 0 <= k < N => seq(N, j requires 0 <= j < N => u[k] * b[k][j] * c[j]))
  }

  lemma ProductsEntry(u: seq<real>, b: Grid, c: seq<real>, k: nat, j: nat)
    requires |u| == N && IsMatrix(b) && |c| == N && k < N && j < N
    ensures Products(u, b, c)[k][j] == u[k] * b[k][j] * c[j]
  {
  }

  /** Every entry of `Products`, for use where the 25 entries are needed. */
  lemma ProductsEntries(u: seq<real>, b: Grid, c: seq<real>)
    requires |u| == N && IsMatrix(b) && |c| == N
    ensures forall k, j :: 0 <= k < N && 0 <= j < N ==> Products(u, b, c)[k][j] == u[k] * b[k][j] * c[j]
  {
    forall k, j | 0 <= k < N && 0 <= j < N
      ensures Products(u, b, c)[k][j] == u[k] * b[k][j] * c[j]
    {
      ProductsEntry(u, b, c, k, j);
    }
  }

  function GridSum(g: Grid): real
    requires IsMatrix(g)
  {
    g[0][0] + g[1][0] + g[2][0] + g[3][0] + g[4][0]
      + g[0][1] + g[1][1] + g[2][1] + g[3][1] + g[4][1]
      + g[0][2] + g[1][2] + g[2][2] + g[3][2] + g[4][2]
      + g[0][3] + g[1][3] + g[2][3] + g[3][3] + g[4][3]
      + g[0][4] + g[1][4] + g[2][4] + g[3][4] + g[4][4]
  }

  /** Column j of the product grid sums to u against column j of b, times c[j]. */
  lemma ColumnTimes(u: seq<real>, b: Grid, c: seq<real>, j: nat, x: real)
    requires |u| == N && IsMatrix(b) && |c| == N && j < N && x == Dot(u, Column(b, j))
    ensures x * c[j] == Products(u, b, c)[0][j] + Products(u, b, c)[1][j] + Products(u, b, c)[2][j] + Products(u, b, c)[3][j] + Products(u, b, c)[4][j]
  {
    var v := Column(b, j);
    assert v[0] == b[0][j] && v[1] == b[1][j] && v[2] == b[2][j] && v[3] == b[3][j] && v[4] == b[4][j];
    DotExplicit(u, v);
    ProductsEntries(u, b, c);
  }

  /** Row k of the product grid sums to u[k] times row k of b against c. */
  lemma RowTimes(u: seq<real>, b: Grid, c: seq<real>, k: nat, x: real)
    requires |u| == N && IsMatrix(b) && |c| == N && k < N && x == Dot(b[k], c)
    ensures u[k] * x == Products(u, b, c)[k][0] + Products(u, b, c)[k][1] + Products(u, b, c)[k][2] + Products(u, b, c)[k][3] + Products(u, b, c)[k][4]
  {
    DotExplicit(b[k], c);
    ProductsEntries(u, b, c);
  }

  /** The row of a product (u against each column of b), against c. */
  lemma ProductRowSum(u: seq<real>, b: Grid, c: seq<real>)
    requires |u| == N && IsMatrix(b) && |c| == N
    ensures Dot([Dot(u, Column(b, 0)), Dot(u, Column(b, 1)), Dot(u, Column(b, 2)), Dot(u, Column(b, 3)),
      Dot(u, Column(b, 4))], c) == GridSum(Products(u, b, c))
  {
    var x0, x1, x2 := Dot(u, Column(b, 0)), Dot(u, Column(b, 1)), Dot(u, Column(b, 2));
    var x3, x4 := Dot(u, Column(b, 3)), Dot(u, Column(b, 4));
    var g := Products(u, b, c);
    assert x0 * c[0] == g[0][0] + g[1][0] + g[2][0] + g[3][0] + g[4][0] by {
      ColumnTimes(u, b, c, 0, x0);
    }
    assert x1 * c[1] == g[0][1] + g[1][1] + g[2][1] + g[3][1] + g[4][1] by {
      ColumnTimes(u, b, c, 1, x1);
    }
    assert x2 * c[2] == g[0][2] + g[1][2] + g[2][2] + g[3][2] + g[4][2] by {
      ColumnTimes(u, b, c, 2, x2);
    }
    assert x3 * c[3] == g[0][3] + g[1][3] + g[2][3] + g[3][3] + g[4][3] by {
      ColumnTimes(u, b, c, 3, x3);
    }
    assert x4 * c[4] == g[0][4] + g[1][4] + g[2][4] + g[3][4] + g[4][4] by {
      ColumnTimes(u, b, c, 4, x4);
    }
    DotOfFive(x0, x1, x2, x3, x4, c);
  }

  /** u against b's image of c. */
  lemma ImageRowSum(u: seq<real>, b: Grid, c: seq<real>)
    requires |u| == N && IsMatrix(b) && |c| == N
    ensures Dot(u, Apply(b, c)) == GridSum(Products(u, b, c))
  {
    var bc := Apply(b, c);
    var g := Products(u, b, c);
    assert u[0] * bc[0] == g[0][0] + g[0][1] + g[0][2] + g[0][3] + g[0][4] by {
      RowTimes(u, b, c, 0, bc[0]);
    }
    assert u[1] * bc[1] == g[1][0] + g[1][1] + g[1][2] + g[1][3] + g[1][4] by {
      RowTimes(u, b, c, 1, bc[1]);
    }
    assert u[2] * bc[2] == g[2][0] + g[2][1] + g[2][2] + g[2][3] + g[2][4] by {
      RowTimes(u, b, c, 2, bc[2]);
    }
    assert u[3] * bc[3] == g[3][0] + g[3][1] + g[3][2] + g[3][3] + g[3][4] by {
      RowTimes(u, b, c, 3, bc[3]);
    }
    assert u[4] * bc[4] == g[4][0] + g[4][1] + g[4][2] + g[4][3] + g[4][4] by {
      RowTimes(u, b, c, 4, bc[4]);
    }
    assert Dot(u, bc) == u[0] * bc[0] + u[1] * bc[1] + u[2] * bc[2] + u[3] * bc[3] + u[4] * bc[4] by {
      DotExplicit(u, bc);
    }
  }

  /** The product applies its right operand first: (a * b) c == a (b c). */
  lemma ApplyMultiply(a: Grid, b: Grid, c: seq<real>)
    requires IsMatrix(a) && IsMatrix(b) && |c| == N
    ensures Apply(Multiply(a, b), c) == Apply(a, Apply(b, c))
  {
    var p := Multiply(a, b);
    var bc := Apply(b, c);
    forall i | 0 <= i < N
      ensures Dot(p[i], c) == Dot(a[i], bc)
    {
      assert p[i] == [Dot(a[i], Column(b, 0)), Dot(a[i], Column(b, 1)), Dot(a[i], Column(b, 2)),
        Dot(a[i], Column(b, 3)), Dot(a[i], Column(b, 4))];
      ProductRowSum(a[i], b, c);
      ImageRowSum(a[i], b, c);
    }
  }

  lemma ApplyIdentity(c: seq<real>)
    requires |c| == N
    ensures Apply(Identity(), c) == c
  {
    var x := Apply(Identity(), c);
    DotRowsExplicit(Identity(), c);
    assert x[0] == c[0] && x[1] == c[1] && x[2] == c[2] && x[3] == c[3] && x[4] == c[4];
  }

  lemma AddCommutes(a: Grid, b: Grid)
    requires IsMatrix(a) && IsMatrix(b)
    ensures Add(a, b) == Add(b, a)
  {
    forall i | 0 <= i < N
      ensures Add(a, b)[i] == Add(b, a)[i]
    {
    }
  }

  /** The product distributes over the sum: (a + b) * c == a * c + b * c. */
  lemma MultiplyDistributesOverAdd(a: Grid, b: Grid, c: Grid)
    requires IsMatrix(a) && IsMatrix(b) && IsMatrix(c)
    ensures Multiply(Add(a, b), c) == Add(Multiply(a, c), Multiply(b, c))
  {
    var l := Multiply(Add(a, b), c);
    var r := Add(Multiply(a, c), Multiply(b, c));
    forall i, j | 0 <= i < N && 0 <= j < N
      ensures l[i][j] == r[i][j]
    {
      var s := Add(a, b);
      assert l[i][j] == Dot(s[i], Column(c, j));
      DotExplicit(s[i], Column(c, j));
      DotExplicit(a[i], Column(c, j));
      DotExplicit(b[i], Column(c, j));
    }
    forall i | 0 <= i < N
      ensures l[i] == r[i]
    {
    }
  }
}
