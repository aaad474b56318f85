/**
 Convolution as a matrix product: benchmark/ansor/conv2d_nchw_im2col.py, and the
 16x16 packed product of benchmark/autotvm/autotvm-conv2d-nchw-createtask.py.
 */
module Im2col {
  import opened Sums
  import opened Indices
  import opened Convolution

  // ---- a flat sum is a sum over three axes ----

  lemma SlicesAt(c: nat, h: Index -> real, f: int -> real)
    requires forall k :: 0 <= k < c ==> h([k]) == f(k)
    ensures SumBox([c], h) == Sum(c, f)
  {
    assert [c][1..] == [];
    forall k | 0 <= k < c
      ensures Slices([], h)(k) == f(k)
    {
      assert [k] + [] == [k];
    }
    SumExt(c, Slices([], h), f);
  }

  lemma FlattenTwo(b: nat, c: nat, h: Index -> real, f: int -> real)
    requires forall j, k :: 0 <= j < b && 0 <= k < c ==> h([j, k]) == f(j * c + k)
    ensures b * c >= 0
    ensures SumBox([b, c], h) == Sum(b * c, f)
  {
    assert [b, c][1..] == [c];
    forall j | 0 <= j < b
      ensures Slices([c], h)(j) == Sum(c, Row(f, c, j))
    {
      forall k | 0 <= k < c
        ensures Fix(h, j)([k]) == Row(f, c, j)(k)
      {
        assert [j] + [k] == [j, k];
      }
      SlicesAt(c, Fix(h, j), Row(f, c, j));
    }
    SumRows(b, c, f, Slices([c], h));
  }

  lemma FlattenThree(a: nat, b: nat, c: nat, g: (int, int, int) -> real, f: int -> real)
    requires forall i, j, k :: 0 <= i < a && 0 <= j < b && 0 <= k < c ==> g(i, j, k) == f(Flat(i, j, k, b, c))
    ensures b * c >= 0 && a * (b * c) >= 0
    ensures Sum3(a, b, c, g) == Sum(a * (b * c), f)
  {
    var h, m := Lift3(g), b * c;
    MulMonotone(0, b, c);
    assert [a, b, c][1..] == [b, c];
    forall i | 0 <= i < a
      ensures Slices([b, c], h)(i) == Sum(m, Row(f, m, i))
    {
      forall j, k | 0 <= j < b && 0 <= k < c
        ensures Fix(h, i)([j, k]) == Row(f, m, i)(j * c + k)
      {
        assert [i] + [j, k] == [i, j, k];
      }
      FlattenTwo(b, c, Fix(h, i), Row(f, m, i));
    }
    SumRows(a, m, f, Slices([b, c], h));
  }

  // ---- the two matrices ----

  /** CI * KH * KW */
  function Depth(s: Shape): nat {
    MulMonotone(0, s.R, s.S);
    MulMonotone(0, s.C, s.R * s.S);
    s.C * (s.R * s.S)
  }

  /** Row npq of the image matrix holds the window of output (n, p, q). */
  function Left(s: Shape, a: Tensor4): Tensor2
    requires s.Valid()
  {
    var pq, rs := s.P() * s.Q(), s.R * s.S;
    OutputNonEmpty(s);
    (npq, crs) =>
      Padded(s, a)(npq / pq, crs / rs, npq % pq / s.Q() * s.strideH + crs % rs / s.S, npq % s.Q() * s.strideW + crs % s.S)
  }

  lemma OutputNonEmpty(s: Shape)
    requires s.Valid()
    ensures s.P() >= 1 && s.Q() >= 1 && s.P() * s.Q() >= 1 && s.R * s.S >= 1
  {
    MulGrows(s.P(), s.Q());
    MulGrows(s.R, s.S);
  }

  function Right(s: Shape, b: Tensor4): Tensor2
    requires s.Valid()
  {
    var rs := s.R * s.S;
    OutputNonEmpty(s);
    (crs, k) => b(k, crs / rs, crs % rs / s.S, crs % s.S)
  }

  ghost function Gemm(depth: nat, left: Tensor2, right: Tensor2, i: int, k: int): real {
    Sum(depth, GemmTerm(left, right, i, k))
  }

  function GemmTerm(left: Tensor2, right: Tensor2, i: int, k: int): int -> real {
    x => left(i, x) * right(x, k)
  }

  ghost function ByMatrices(s: Shape, a: Tensor4, b: Tensor4, n: int, k: int, p: int, q: int): real
    requires s.Valid()
  {
    Gemm(Depth(s), Left(s, a), Right(s, b), Flat(n, p, q, s.P(), s.Q()), k)
  }

  /** An entry of the product at flattened indices is a term of the convolution. */
  lemma EntryIsTerm(s: Shape, a: Tensor4, b: Tensor4, n: int, k: int, p: int, q: int, c: int, r: int, t: int)
    requires s.Valid() && 0 <= p < s.P() && 0 <= q < s.Q() && 0 <= r < s.R && 0 <= t < s.S
    ensures GemmTerm(Left(s, a), Right(s, b), Flat(n, p, q, s.P(), s.Q()), k)(Flat(c, r, t, s.R, s.S))
         == DirectTerm(s, a, b, n, k, p, q)(c, r, t)
  {
    hide Padded, Shape.P, Shape.Q;
    FlatParts(n, p, q, s.P(), s.Q());
    FlatParts(c, r, t, s.R, s.S);
    var npq, crs := Flat(n, p, q, s.P(), s.Q()), Flat(c, r, t, s.R, s.S);
    assert Left(s, a)(npq, crs) == Padded(s, a)(n, c, p * s.strideH + r, q * s.strideW + t);
    assert Right(s, b)(crs, k) == b(k, c, r, t);
  }

  /** im2col computes the direct convolution, for all sizes, strides and paddings. */
  lemma ByMatricesIsDirect(s: Shape, a: Tensor4, b: Tensor4, n: int, k: int, p: int, q: int)
    requires s.Valid() && 0 <= p < s.P() && 0 <= q < s.Q()
    ensures ByMatrices(s, a, b, n, k, p, q) == Direct(s, a, b, n, k, p, q)
  {
    hide Left, Right, GemmTerm, DirectTerm, Flat, Shape.P, Shape.Q;
    var npq := Flat(n, p, q, s.P(), s.Q());
    var f := GemmTerm(Left(s, a), Right(s, b), npq, k);
    var g := DirectTerm(s, a, b, n, k, p, q);
    forall c, r, t | 0 <= c < s.C && 0 <= r < s.R && 0 <= t < s.S
      ensures g(c, r, t) == f(Flat(c, r, t, s.R, s.S))
    {
      EntryIsTerm(s, a, b, n, k, p, q, c, r, t);
    }
    FlattenThree(s.C, s.R, s.S, g, f);
  }

  /** Every index the two matrices read lies inside the padded image and the kernel. */
  lemma ReadsInBounds(s: Shape, npq: int, crs: int)
    requires s.Valid() && 0 <= npq < s.N * (s.P() * s.Q()) && 0 <= crs < Depth(s)
    ensures var pq, rs := s.P() * s.Q(), s.R * s.S;
            && pq > 0 && rs > 0
            && 0 <= npq / pq < s.N && 0 <= crs / rs < s.C
            && 0 <= crs % rs / s.S < s.R && 0 <= crs % s.S < s.S
            && 0 <= npq % pq / s.Q() * s.strideH + crs % rs / s.S < s.H + 2 * s.padH
            && 0 <= npq % s.Q() * s.strideW + crs % s.S < s.W + 2 * s.padW
  {
    OutputNonEmpty(s);
    var pq, rs := s.P() * s.Q(), s.R * s.S;
    QuotientBelow(npq, s.N, pq);
    QuotientBelow(crs, s.C, rs);
    QuotientBelow(npq % pq, s.P(), s.Q());
    QuotientBelow(crs % rs, s.R, s.S);
    WindowFits(npq % pq / s.Q(), s.H + 2 * s.padH, s.R, s.strideH);
    WindowFits(npq % s.Q(), s.W + 2 * s.padW, s.S, s.strideW);
  }

  lemma QuotientBelow(x: int, a: int, m: int)
    requires m > 0 && 0 <= x < a * m
    ensures 0 <= x / m < a
  {
    var q := x / m;
    assert x == q * m + x % m;
    if q < 0 { MulMonotone(q, -1, m); }
    if q >= a { MulMonotone(a, q, m); }
  }

  /** The last window ends inside the padded axis. */
  lemma WindowFits(p: int, padded: nat, kernel: nat, stride: nat)
    requires kernel <= padded && stride >= 1 && 0 <= p < OutputSize(padded, kernel, stride)
    ensures 0 <= p * stride <= padded - kernel
  {
    var d := padded - kernel;
    assert d == d / stride * stride + d % stride;
    MulMonotone(p, d / stride, stride);
    MulMonotone(0, p, stride);
  }

  // ---- the packed product ----

  /** (n + 15) // 16 */
  function Tiles(n: nat): nat { (n + 15) / 16 }

  /** Entry (ii, jj) of tile (i, j), zero past the matrix. */
  function Pack(rows: nat, cols: nat, m: Tensor2): Tensor4 {
    (i, j, ii, jj) => if i * 16 + ii < rows && j * 16 + jj < cols then m(i * 16 + ii, j * 16 + jj) else 0.0
  }

  /** Both matrices packed by rows; the reduction runs over tiles and inside them. */
  ghost function PackedProduct(rows: nat, cols: nat, depth: nat, left: Tensor2, right: Tensor2,
                               i: int, j: int, ii: int, jj: int): real
  {
    SumBox([Tiles(depth), 16], PackedTerm(Pack(rows, depth, left), Pack(cols, depth, right), i, j, ii, jj))
  }

  function PackedTerm(left: Tensor4, right: Tensor4, i: int, j: int, ii: int, jj: int): Index -> real {
    v => if |v| == 2 then left(i, v[0], ii, v[1]) * right(j, v[0], jj, v[1]) else 0.0
  }

  /** The packed product read back as a matrix. */
  ghost function Unpacked(rows: nat, cols: nat, depth: nat, left: Tensor2, right: Tensor2, i: int, j: int): real {
    PackedProduct(rows, cols, depth, left, right, i / 16, j / 16, i % 16, j % 16)
  }

  /** The term of the product, cut off at the depth */
  function CutTerm(depth: nat, left: Tensor2, right: Tensor2, x: int, y: int): int -> real {
    z => if z < depth then left(x, z) * right(y, z) else 0.0
  }

  /** A packed entry inside both matrices is the plain product of the two rows. */
  lemma PackedIsProduct(rows: nat, cols: nat, depth: nat, left: Tensor2, right: Tensor2, i: int, j: int, ii: int, jj: int)
    requires i * 16 + ii < rows && j * 16 + jj < cols
    ensures PackedProduct(rows, cols, depth, left, right, i, j, ii, jj)
         == Sum(depth, CutTerm(depth, left, right, i * 16 + ii, j * 16 + jj))
  {
    var f := CutTerm(depth, left, right, i * 16 + ii, j * 16 + jj);
    var h := PackedTerm(Pack(rows, depth, left), Pack(cols, depth, right), i, j, ii, jj);
    forall rk, rki | 0 <= rk < Tiles(depth) && 0 <= rki < 16
      ensures h([rk, rki]) == f(rk * 16 + rki)
    {
    }
    FlattenTwo(Tiles(depth), 16, h, f);
    SumTruncate(depth, Tiles(depth) * 16, f);
  }

  /** Every packed entry in a padding row or column is zero. */
  lemma PackedPaddingIsZero(rows: nat, cols: nat, depth: nat, left: Tensor2, right: Tensor2, i: int, j: int, ii: int, jj: int)
    requires i * 16 + ii >= rows || j * 16 + jj >= cols
    ensures PackedProduct(rows, cols, depth, left, right, i, j, ii, jj) == 0.0
  {
    var h := PackedTerm(Pack(rows, depth, left), Pack(cols, depth, right), i, j, ii, jj);
    forall v | InBox([Tiles(depth), 16], v)
      ensures h(v) == 0.0
    {
    }
    BoxZero([Tiles(depth), 16], h);
  }

  function Transpose(m: Tensor2): Tensor2 { (i, j) => m(j, i) }

  /** The convolution through packed tiles: both operands packed by rows of the depth axis. */
  ghost function ByTiles(s: Shape, a: Tensor4, b: Tensor4, n: int, k: int, p: int, q: int): real
    requires s.Valid()
  {
    Unpacked(Rows(s), s.K, Depth(s), Left(s, a), Transpose(Right(s, b)), Flat(n, p, q, s.P(), s.Q()), k)
  }

  /** N * P * Q */
  function Rows(s: Shape): nat
    requires s.Valid()
  {
    OutputNonEmpty(s);
    MulMonotone(0, s.N, s.P() * s.Q());
    s.N * (s.P() * s.Q())
  }

  /** Packing, the two-level reduction and unpacking give the direct convolution. */
  lemma ByTilesIsDirect(s: Shape, a: Tensor4, b: Tensor4, n: int, k: int, p: int, q: int)
    requires s.Valid() && 0 <= n < s.N && 0 <= k < s.K && 0 <= p < s.P() && 0 <= q < s.Q()
    ensures ByTiles(s, a, b, n, k, p, q) == Direct(s, a, b, n, k, p, q)
  {
    hide CutTerm, Depth, Direct, Flat, GemmTerm, Left, PackedProduct, Right, Rows, Shape.P, Shape.Q, Sum;
    var depth, left, right := Depth(s), Left(s, a), Right(s, b);
    var npq := Flat(n, p, q, s.P(), s.Q());
    RowBelow(s, n, p, q);
    PackedIsProduct(Rows(s), s.K, depth, left, Transpose(right), npq / 16, k / 16, npq % 16, k % 16);
    CutIsGemm(depth, left, right, npq, k);
    ByMatricesIsDirect(s, a, b, n, k, p, q);
  }

  lemma CutIsGemm(depth: nat, left: Tensor2, right: Tensor2, i: int, k: int)
    ensures Sum(depth, CutTerm(depth, left, Transpose(right), i, k)) == Sum(depth, GemmTerm(left, right, i, k))
  {
    SumExt(depth, CutTerm(depth, left, Transpose(right), i, k), GemmTerm(left, right, i, k));
  }

  lemma RowBelow(s: Shape, n: int, p: int, q: int)
    requires s.Valid() && 0 <= n < s.N && 0 <= p < s.P() && 0 <= q < s.Q()
    ensures 0 <= Flat(n, p, q, s.P(), s.Q()) < Rows(s)
  {
    TwoParts(p, q, s.P(), s.Q());
    TwoParts(n, p * s.Q() + q, s.N, s.P() * s.Q());
  }
}
