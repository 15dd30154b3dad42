/** `Matrix.inverse`: Gauss-Jordan elimination with partial pivoting on the
    5x10 augmented matrix [m | I]. A pivot whose magnitude, after the row
    swap, is below SingularThreshold makes the whole call return the identity
    instead (`Matrix.inverse` also logs a warning; here that is the
    `singular` flag). In exact arithmetic every other call returns a right inverse. */
module GaussJordan {
  import opened ColorMatrix

  /** Pivots smaller than this in magnitude count as zero. */
  const SingularThreshold: real := 0.0000000001

  /** Width of the augmented matrix [m | I]. */
  const AugWidth: nat := 10

  predicate IsZero(m: Grid)
    requires IsMatrix(m)
  {
    forall i, j :: 0 <= i < N && 0 <= j < N ==> m[i][j] == 0.0
  }

  /** Some diagonal entry of m is below the pivot threshold in magnitude. */
  predicate HasSmallDiagonal(m: Grid)
    requires IsMatrix(m)
  {
    exists k :: 0 <= k < N && Abs(m[k][k]) < SingularThreshold
  }

  /** [m | I]: each row of m followed by the same row of the identity. */
  function Augment(m: Grid): (a: Grid)
    requires IsMatrix(m)
    ensures IsGrid(a, AugWidth)
  {
    var e := Identity();
    [m[0] + e[0], m[1] + e[1], m[2] + e[2], m[3] + e[3], m[4] + e[4]]
  }

  function LeftHalf(x: Grid): (l: Grid)
    requires IsGrid(x, AugWidth)
    ensures IsMatrix(l)
  {
    seq(N, i requires 0 <= i < N => x[i][..N])
  }

  function RightHalf(x: Grid): (r: Grid)
    requires IsGrid(x, AugWidth)
    ensures IsMatrix(r)
  {
    seq(N, i requires 0 <= i < N => x[i][N..])
  }

  /** Columns 0 .. i-1 of the left half are already those of the identity. */
  predicate ColumnsCleared(x: Grid, i: nat)
    requires IsGrid(x, AugWidth) && i <= N
  {
    forall r, c :: 0 <= r < N && 0 <= c < i ==> x[r][c] == if r == c then 1.0 else 0.0
  }

  // ---------------------------------------------------------------------
  // The three row operations of the elimination

  function SwapRows(x: Grid, p: nat, q: nat): (y: Grid)
    requires IsGrid(x, AugWidth) && p < N && q < N
    ensures IsGrid(y, AugWidth)
    ensures y[p] == x[q] && y[q] == x[p]
    ensures forall r :: 0 <= r < N && r != p && r != q ==> y[r] == x[r]
  {
    x[p := x[q]][q := x[p]]
  }

  /** Row p divided entry by entry by the pivot c. */
  function DivideRow(x: Grid, p: nat, c: real): (y: Grid)
    requires IsGrid(x, AugWidth) && p < N && c != 0.0
    ensures IsGrid(y, AugWidth)
    ensures forall j :: 0 <= j < AugWidth ==> y[p][j] == x[p][j] / c
    ensures forall r :: 0 <= r < N && r != p ==> y[r] == x[r]
  {
    x[p := seq(AugWidth, j requires 0 <= j < AugWidth => x[p][j] / c)]
  }

  /** Row k minus f times row p. */
  function SubtractRow(x: Grid, k: nat, p: nat, f: real): (y: Grid)
    requires IsGrid(x, AugWidth) && k < N && p < N
    ensures IsGrid(y, AugWidth)
    ensures forall j :: 0 <= j < AugWidth ==> y[k][j] == x[k][j] - f * x[p][j]
    ensures forall r :: 0 <= r < N && r != k ==> y[r] == x[r]
  {
    x[k := seq(AugWidth, j requires 0 <= j < AugWidth => x[k][j] - f * x[p][j])]
  }

  /** Subtracting zero times a row changes nothing. */
  lemma SubtractZero(x: Grid, k: nat, p: nat)
    requires IsGrid(x, AugWidth) && k < N && p < N
    ensures SubtractRow(x, k, p, 0.0) == x
  {
    var y := SubtractRow(x, k, p, 0.0);
    forall j | 0 <= j < AugWidth
      ensures y[k][j] == x[k][j]
    {
      assert y[k][j] == x[k][j] - 0.0 * x[p][j];
    }
    assert y[k] == x[k];
    assert forall r :: 0 <= r < N ==> y[r] == x[r];
  }

  // ---------------------------------------------------------------------
  // The column operations that undo them from the left (proof only)

  function SwapColumns(s: Grid, p: nat, q: nat): (t: Grid)
    requires IsMatrix(s) && p < N && q < N
    ensures IsMatrix(t)
    ensures forall i :: 0 <= i < N ==> t[i][p] == s[i][q] && t[i][q] == s[i][p]
    ensures forall i, r :: 0 <= i < N && 0 <= r < N && r != p && r != q ==> t[i][r] == s[i][r]
  {
    seq(N, i requires 0 <= i < N => s[i][p := s[i][q]][q := s[i][p]])
  }

  function ScaleColumn(s: Grid, p: nat, c: real): (t: Grid)
    requires IsMatrix(s) && p < N
    ensures IsMatrix(t)
    ensures forall i :: 0 <= i < N ==> t[i][p] == s[i][p] * c
    ensures forall i, r :: 0 <= i < N && 0 <= r < N && r != p ==> t[i][r] == s[i][r]
  {
    seq(N, i requires 0 <= i < N => s[i][p := s[i][p] * c])
  }

  /** Column p plus f times column k. */
  function AddColumn(s: Grid, p: nat, k: nat, f: real): (t: Grid)
    requires IsMatrix(s) && p < N && k < N
    ensures IsMatrix(t)
    ensures forall i :: 0 <= i < N ==> t[i][p] == s[i][p] + f * s[i][k]
    ensures forall i, r :: 0 <= i < N && 0 <= r < N && r != p ==> t[i][r] == s[i][r]
  {
    seq(N, i requires 0 <= i < N => s[i][p := s[i][p] + f * s[i][k]])
  }

  // ---------------------------------------------------------------------
  // Each row operation on x, matched by its column operation on s, keeps
  // the product s * x.

  /** Inner products of pairs that agree outside coordinate p differ only by
      the products at p. */
  lemma DotChangedAt(a: seq<real>, b: seq<real>, u: seq<real>, v: seq<real>, p: nat)
    requires |a| == N && |b| == N && |u| == N && |v| == N && p < N
    requires forall r :: 0 <= r < N && r != p ==> a[r] == u[r] && b[r] == v[r]
    ensures Dot(a, b) == Dot(u, v) + (a[p] * b[p] - u[p] * v[p])
  {
    DotExplicit(a, b);
    DotExplicit(u, v);
    if p == 0 {
      assert a[1] == u[1] && a[2] == u[2] && a[3] == u[3] && a[4] == u[4];
      assert b[1] == v[1] && b[2] == v[2] && b[3] == v[3] && b[4] == v[4];
    } else if p == 1 {
      assert a[0] == u[0] && a[2] == u[2] && a[3] == u[3] && a[4] == u[4];
      assert b[0] == v[0] && b[2] == v[2] && b[3] == v[3] && b[4] == v[4];
    } else if p == 2 {
      assert a[0] == u[0] && a[1] == u[1] && a[3] == u[3] && a[4] == u[4];
      assert b[0] == v[0] && b[1] == v[1] && b[3] == v[3] && b[4] == v[4];
    } else if p == 3 {
      assert a[0] == u[0] && a[1] == u[1] && a[2] == u[2] && a[4] == u[4];
      assert b[0] == v[0] && b[1] == v[1] && b[2] == v[2] && b[4] == v[4];
    } else {
      assert a[0] == u[0] && a[1] == u[1] && a[2] == u[2] && a[3] == u[3];
      assert b[0] == v[0] && b[1] == v[1] && b[2] == v[2] && b[3] == v[3];
    }
  }

  /** The same for pairs that agree outside the two coordinates p and q. */
  lemma DotChangedAtTwo(a: seq<real>, b: seq<real>, u: seq<real>, v: seq<real>, p: nat, q: nat)
    requires |a| == N && |b| == N && |u| == N && |v| == N && p < N && q < N && p != q
    requires forall r :: 0 <= r < N && r != p && r != q ==> a[r] == u[r] && b[r] == v[r]
    ensures Dot(a, b) == Dot(u, v) + (a[p] * b[p] - u[p] * v[p]) + (a[q] * b[q] - u[q] * v[q])
  {
    var a1, b1 := u[p := a[p]], v[p := b[p]];
    DotChangedAt(a, b, a1, b1, q);
    DotChangedAt(a1, b1, u, v, p);
  }

  lemma ScaleCancels(ap: real, bp: real, up: real, vp: real, c: real)
    requires c != 0.0 && ap == up * c && bp == vp / c
    ensures ap * bp - up * vp == 0.0
  {
    assert up * c * (vp / c) == up * vp;
  }

  lemma DivideSelf(c: real)
    requires c != 0.0
    ensures c / c == 1.0
  {
  }

  lemma AddCancels(ap: real, bp: real, ak: real, bk: real, up: real, vp: real, uk: real, vk: real, f: real)
    requires ap == up + f * uk && bp == vp && ak == uk && bk == vk - f * vp
    ensures (ap * bp - up * vp) + (ak * bk - uk * vk) == 0.0
  {
  }

  lemma SwapKeepsEntry(s: Grid, x: Grid, p: nat, q: nat, i: nat, j: nat)
    requires IsMatrix(s) && IsGrid(x, AugWidth) && p < N && q < N && i < N && j < AugWidth
    ensures Dot(SwapColumns(s, p, q)[i], Column(SwapRows(x, p, q), j)) == Dot(s[i], Column(x, j))
  {
    var a, b := SwapColumns(s, p, q)[i], Column(SwapRows(x, p, q), j);
    var u, v := s[i], Column(x, j);
    if p == q {
      DotChangedAt(a, b, u, v, p);
    } else {
      DotChangedAtTwo(a, b, u, v, p, q);
    }
  }

  lemma DivideKeepsEntry(s: Grid, x: Grid, p: nat, c: real, i: nat, j: nat)
    requires IsMatrix(s) && IsGrid(x, AugWidth) && p < N && c != 0.0 && i < N && j < AugWidth
    ensures Dot(ScaleColumn(s, p, c)[i], Column(DivideRow(x, p, c), j)) == Dot(s[i], Column(x, j))
  {
    var a, b := ScaleColumn(s, p, c)[i], Column(DivideRow(x, p, c), j);
    var u, v := s[i], Column(x, j);
    DotChangedAt(a, b, u, v, p);
    ScaleCancels(a[p], b[p], u[p], v[p], c);
  }

  lemma SubtractKeepsEntry(s: Grid, x: Grid, p: nat, k: nat, f: real, i: nat, j: nat)
    requires IsMatrix(s) && IsGrid(x, AugWidth) && p < N && k < N && p != k && i < N && j < AugWidth
    ensures Dot(AddColumn(s, p, k, f)[i], Column(SubtractRow(x, k, p, f), j)) == Dot(s[i], Column(x, j))
  {
    var a, b := AddColumn(s, p, k, f)[i], Column(SubtractRow(x, k, p, f), j);
    var u, v := s[i], Column(x, j);
    DotChangedAtTwo(a, b, u, v, p, k);
    AddCancels(a[p], b[p], a[k], b[k], u[p], v[p], u[k], v[k], f);
  }

  lemma SwapKeepsProduct(s: Grid, x: Grid, p: nat, q: nat)
    requires IsMatrix(s) && IsGrid(x, AugWidth) && p < N && q < N
    ensures Multiply(SwapColumns(s, p, q), SwapRows(x, p, q)) == Multiply(s, x)
  {
    var l, r := Multiply(SwapColumns(s, p, q), SwapRows(x, p, q)), Multiply(s, x);
    forall i | 0 <= i < N
      ensures l[i] == r[i]
    {
      forall j | 0 <= j < AugWidth
        ensures l[i][j] == r[i][j]
      {
        SwapKeepsEntry(s, x, p, q, i, j);
      }
    }
  }

  lemma DivideKeepsProduct(s: Grid, x: Grid, p: nat, c: real)
    requires IsMatrix(s) && IsGrid(x, AugWidth) && p < N && c != 0.0
    ensures Multiply(ScaleColumn(s, p, c), DivideRow(x, p, c)) == Multiply(s, x)
  {
    var l, r := Multiply(ScaleColumn(s, p, c), DivideRow(x, p, c)), Multiply(s, x);
    forall i | 0 <= i < N
      ensures l[i] == r[i]
    {
      forall j | 0 <= j < AugWidth
        ensures l[i][j] == r[i][j]
      {
        DivideKeepsEntry(s, x, p, c, i, j);
      }
    }
  }

  lemma SubtractKeepsProduct(s: Grid, x: Grid, p: nat, k: nat, f: real)
    requires IsMatrix(s) && IsGrid(x, AugWidth) && p < N && k < N && p != k
    ensures Multiply(AddColumn(s, p, k, f), SubtractRow(x, k, p, f)) == Multiply(s, x)
  {
    var l, r := Multiply(AddColumn(s, p, k, f), SubtractRow(x, k, p, f)), Multiply(s, x);
    forall i | 0 <= i < N
      ensures l[i] == r[i]
    {
      forall j | 0 <= j < AugWidth
        ensures l[i][j] == r[i][j]
      {
        SubtractKeepsEntry(s, x, p, k, f, i, j);
      }
    }
  }

  /** Multiplying an augmented matrix multiplies each half. */
  lemma ProductHalves(s: Grid, x: Grid)
    requires IsMatrix(s) && IsGrid(x, AugWidth)
    ensures LeftHalf(Multiply(s, x)) == Multiply(s, LeftHalf(x))
    ensures RightHalf(Multiply(s, x)) == Multiply(s, RightHalf(x))
  {
    var p := Multiply(s, x);
    var lx, rx := LeftHalf(x), RightHalf(x);
    forall i, j | 0 <= i < N && 0 <= j < N
      ensures LeftHalf(p)[i][j] == Multiply(s, lx)[i][j]
      ensures RightHalf(p)[i][j] == Multiply(s, rx)[i][j]
    {
      assert Column(lx, j) == Column(x, j);
      assert Column(rx, j) == Column(x, j + N);
    }
    forall i | 0 <= i < N
      ensures LeftHalf(p)[i] == Multiply(s, lx)[i] && RightHalf(p)[i] == Multiply(s, rx)[i]
    {
    }
  }

  lemma AugmentHalves(m: Grid)
    requires IsMatrix(m)
    ensures LeftHalf(Augment(m)) == m && RightHalf(Augment(m)) == Identity()
  {
    var a := Augment(m);
    forall i | 0 <= i < N
      ensures LeftHalf(a)[i] == m[i] && RightHalf(a)[i] == Identity()[i]
    {
      assert a[i] == m[i] + Identity()[i];
    }
  }

  lemma ClearedLeftIsIdentity(x: Grid)
    requires IsGrid(x, AugWidth) && ColumnsCleared(x, N)
    ensures LeftHalf(x) == Identity()
  {
    var l := LeftHalf(x);
    forall i | 0 <= i < N
      ensures l[i] == Identity()[i]
    {
      assert l[i][0] == x[i][0] && l[i][1] == x[i][1] && l[i][2] == x[i][2]
        && l[i][3] == x[i][3] && l[i][4] == x[i][4];
    }
  }

  /** Once the left half is the identity, S * [I | r] == [m | I] makes S == m
      and m * r == I. */
  lemma ClearedGivesInverse(s: Grid, x: Grid, m: Grid)
    requires IsMatrix(s) && IsGrid(x, AugWidth) && IsMatrix(m)
    requires Multiply(s, x) == Augment(m) && ColumnsCleared(x, N)
    ensures Multiply(m, RightHalf(x)) == Identity()
  {
    ClearedLeftIsIdentity(x);
    ProductHalves(s, x);
    AugmentHalves(m);
    MultiplyIdentityRight(s);
  }

  // ---------------------------------------------------------------------
  // Diagonal matrices: no row is ever swapped and no other row is touched,
  // so the pivots are exactly the diagonal entries

  /** Elimination of a diagonal m has reached column i: in columns i.. the
      left half of x is zero off the diagonal, rows i.. still hold m's
      diagonal entries, and every earlier pivot passed the threshold. */
  predicate DiagonalSoFar(x: Grid, m: Grid, i: nat)
    requires IsGrid(x, AugWidth) && IsMatrix(m) && i <= N
  {
    && (forall k, j :: 0 <= k < N && i <= j < N && k != j ==> x[k][j] == 0.0)
    && (forall k :: i <= k < N ==> x[k][k] == m[k][k])
    && (forall k :: 0 <= k < i ==> Abs(m[k][k]) >= SingularThreshold)
  }

  lemma DiagonalStart(m: Grid)
    requires IsMatrix(m) && IsDiagonal(m)
    ensures DiagonalSoFar(Augment(m), m, 0)
  {
    var a := Augment(m);
    forall k, j | 0 <= k < N && 0 <= j < N
      ensures a[k][j] == m[k][j]
    {
      assert a[k] == m[k] + Identity()[k];
    }
  }

  /** The pivot search keeps row i: below it, column i holds only zeros, and
      a later row is chosen only when strictly larger in magnitude. */
  lemma DiagonalPivotStays(x: Grid, m: Grid, i: nat, p: nat)
    requires IsGrid(x, AugWidth) && IsMatrix(m) && i <= p < N
    requires DiagonalSoFar(x, m, i)
    requires forall k :: i <= k < p ==> Abs(x[k][i]) < Abs(x[p][i])
    ensures p == i
  {
    assert forall k :: i < k < N ==> x[k][i] == 0.0;
    assert Abs(x[i][i]) >= 0.0;
  }

  /** One elimination round on a diagonal m divides row i by its pivot and
      leaves every other row alone. */
  lemma DiagonalStep(x: Grid, y: Grid, m: Grid, i: nat)
    requires IsGrid(x, AugWidth) && IsGrid(y, AugWidth) && IsMatrix(m) && i < N
    requires DiagonalSoFar(x, m, i) && Abs(x[i][i]) >= SingularThreshold
    requires forall j :: 0 <= j < AugWidth ==> y[i][j] == x[i][j] / x[i][i]
    requires forall k :: 0 <= k < N && k != i ==> y[k] == x[k]
    ensures DiagonalSoFar(y, m, i + 1)
  {
    forall k, j | 0 <= k < N && i + 1 <= j < N && k != j
      ensures y[k][j] == 0.0
    {
      if k == i {
        assert y[i][j] == 0.0 / x[i][i];
      }
    }
  }

  // ---------------------------------------------------------------------
  // The algorithm

  /** The pivot search: the first row among i..4 whose entry in column i has
      the largest magnitude (a later row wins only when strictly larger). */
  method FindPivot(x: Grid, i: nat) returns (p: nat)
    requires IsGrid(x, AugWidth) && i < N
    ensures i <= p < N
    ensures forall k :: i <= k < N ==> Abs(x[k][i]) <= Abs(x[p][i])
    ensures forall k :: i <= k < p ==> Abs(x[k][i]) < Abs(x[p][i])
  {
    p := i;
    var k := i + 1;
    while k < N
      invariant i < k <= N && i <= p < k
      invariant forall j :: i <= j < k ==> Abs(x[j][i]) <= Abs(x[p][i])
      invariant forall j :: i <= j < p ==> Abs(x[j][i]) < Abs(x[p][i])
    {
      if Abs(x[k][i]) > Abs(x[p][i]) {
        p := k;
      }
      k := k + 1;
    }
  }

  /** Steps 2-3 of one elimination round: divide pivot row i by its pivot,
      then subtract multiples of it from every other row so that column i of
      the left half becomes the i-th identity column. */
  method EliminateColumn(x: Grid, i: nat, ghost s: Grid, ghost m: Grid) returns (y: Grid, ghost t: Grid)
    requires IsGrid(x, AugWidth) && IsMatrix(s) && IsMatrix(m) && i < N
    requires Multiply(s, x) == Augment(m) && ColumnsCleared(x, i)
    requires x[i][i] != 0.0
    ensures IsGrid(y, AugWidth) && IsMatrix(t)
    ensures Multiply(t, y) == Augment(m) && ColumnsCleared(y, i + 1)
    ensures forall j :: 0 <= j < AugWidth ==> y[i][j] == x[i][j] / x[i][i]
    ensures (forall r :: 0 <= r < N && r != i ==> x[r][i] == 0.0) ==> forall r :: 0 <= r < N && r != i ==> y[r] == x[r]
  {
    var pivot := x[i][i];
    DivideKeepsProduct(s, x, i, pivot);
    t := ScaleColumn(s, i, pivot);
    y := DivideRow(x, i, pivot);
    assert y[i][i] == 1.0 by {
      assert y[i][i] == pivot / pivot;
      DivideSelf(pivot);
    }
    var k := 0;
    while k < N
      invariant 0 <= k <= N
      invariant IsGrid(y, AugWidth) && IsMatrix(t)
      invariant Multiply(t, y) == Augment(m)
      invariant ColumnsCleared(y, i)
      invariant y[i][i] == 1.0
      invariant forall row :: 0 <= row < k && row != i ==> y[row][i] == 0.0
      invariant forall j :: 0 <= j < AugWidth ==> y[i][j] == x[i][j] / pivot
      invariant (forall r :: 0 <= r < N && r != i ==> x[r][i] == 0.0) ==> forall r :: 0 <= r < N && r != i ==> y[r] == x[r]
    {
      if k != i {
        var factor := y[k][i];
        if factor == 0.0 {
          SubtractZero(y, k, i);
        }
        SubtractKeepsProduct(t, y, i, k, factor);
        t := AddColumn(t, i, k, factor);
        y := SubtractRow(y, k, i, factor);
      }
      k := k + 1;
    }
  }

  /** One round of the outer loop of `Matrix.inverse`: pick the pivot row
      for column i, swap it up, and either report a pivot below the
      threshold (`small`) or eliminate column i. For a diagonal m the pivot
      is exactly m[i][i]. */
  method EliminationRound(x: Grid, i: nat, ghost s: Grid, ghost m: Grid) returns (y: Grid, ghost t: Grid, small: bool)
    requires IsGrid(x, AugWidth) && IsMatrix(s) && IsMatrix(m) && i < N
    requires Multiply(s, x) == Augment(m) && ColumnsCleared(x, i)
    requires IsDiagonal(m) ==> DiagonalSoFar(x, m, i)
    ensures IsGrid(y, AugWidth) && IsMatrix(t)
    ensures !small ==> Multiply(t, y) == Augment(m) && ColumnsCleared(y, i + 1)
    ensures !small && IsDiagonal(m) ==> DiagonalSoFar(y, m, i + 1)
    ensures IsDiagonal(m) ==> (small <==> Abs(m[i][i]) < SingularThreshold)
    ensures i == 0 && x == Augment(m) && IsZero(m) ==> small
  {
    var maxRow := FindPivot(x, i);
    y, t := x, s;
    if IsDiagonal(m) {
      DiagonalPivotStays(x, m, i, maxRow);
    }
    if maxRow != i {
      SwapKeepsProduct(s, x, i, maxRow);
      t := SwapColumns(s, i, maxRow);
      y := SwapRows(x, i, maxRow);
    }
    assert i == 0 && x == Augment(m) ==> y[i][i] == m[maxRow][0];
    small := Abs(y[i][i]) < SingularThreshold;
    if !small {
      ghost var prev := y;
      y, t := EliminateColumn(y, i, t, m);
      if IsDiagonal(m) {
        DiagonalStep(prev, y, m, i);
      }
    }
  }

  /** `Matrix.inverse`. Either the identity with `singular` set, or, in exact
      arithmetic, a right inverse of m. The all-zero matrix always takes the
      singular path, and a diagonal matrix takes it exactly when one of its
      diagonal entries is below the threshold in magnitude. */
  method Inverse(m: Grid) returns (r: Grid, singular: bool)
    requires IsMatrix(m)
    ensures IsMatrix(r)
    ensures singular ==> r == Identity()
    ensures !singular ==> Multiply(m, r) == Identity()
    ensures IsZero(m) ==> singular
    ensures IsDiagonal(m) ==> (singular <==> HasSmallDiagonal(m))
  {
    var aug := Augment(m);
    ghost var s := Identity();
    MultiplyIdentityLeft(aug);
    if IsDiagonal(m) {
      DiagonalStart(m);
    }
    var i := 0;
    while i < N
      invariant 0 <= i <= N
      invariant IsGrid(aug, AugWidth) && IsMatrix(s)
      invariant Multiply(s, aug) == Augment(m)
      invariant ColumnsCleared(aug, i)
      invariant i == 0 ==> aug == Augment(m)
      invariant IsZero(m) ==> i == 0
      invariant IsDiagonal(m) ==> DiagonalSoFar(aug, m, i)
    {
      var small;
      aug, s, small := EliminationRound(aug, i, s, m);
      if small {
        r := Identity();
        singular := true;
        return;
      }
      i := i + 1;
    }
    ClearedGivesInverse(s, aug, m);
    r := RightHalf(aug);
    singular := false;
  }
}
