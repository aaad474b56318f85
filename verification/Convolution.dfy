/**
 The convolutions of the benchmarks as index lambdas over exact reals:
 benchmark/amos/mapping_conv2d_tensorcore.py (direct form, dilation 1),
 benchmark/ansor/conv2d_nchw_im2col.py and
 benchmark/autotvm/autotvm-conv2d-nchw-createtask.py (matrix forms).
 */
module Convolution {
  import opened Sums

  type Tensor2 = (int, int) -> real
  type Tensor4 = (int, int, int, int) -> real

  /** Batch, channels, image, filters, kernel, and stride and padding by axis. */
  datatype Shape = Shape(
    N: nat, C: nat, H: nat, W: nat, K: nat, R: nat, S: nat,
    strideH: nat, strideW: nat, padH: nat, padW: nat)
  {
    predicate Valid() {
      && strideH >= 1 && strideW >= 1 && R >= 1 && S >= 1
      && H + 2 * padH >= R && W + 2 * padW >= S
    }

    function P(): nat
      requires Valid()
    {
      OutputSize(H + 2 * padH, R, strideH)
    }

    function Q(): nat
      requires Valid()
    {
      OutputSize(W + 2 * padW, S, strideW)
    }
  }

  /** (padded - kernel) // stride + 1 */
  function OutputSize(padded: nat, kernel: nat, stride: nat): nat
    requires kernel <= padded && stride >= 1
  {
    QuotientNonNegative(padded - kernel, stride);
    (padded - kernel) / stride + 1
  }

  lemma QuotientNonNegative(x: nat, m: nat)
    requires m >= 1
    ensures x / m >= 0
  {}

  // ---- the direct form ----

  function Padded(s: Shape, a: Tensor4): Tensor4 {
    (n, c, h, w) =>
      if s.padH <= h < s.H + s.padH && s.padW <= w < s.W + s.padW then a(n, c, h - s.padH, w - s.padW) else 0.0
  }

  ghost function Direct(s: Shape, a: Tensor4, b: Tensor4, n: int, k: int, p: int, q: int): real {
    Sum3(s.C, s.R, s.S, DirectTerm(s, a, b, n, k, p, q))
  }

  function DirectTerm(s: Shape, a: Tensor4, b: Tensor4, n: int, k: int, p: int, q: int): (int, int, int) -> real {
    (c, r, t) => Padded(s, a)(n, c, p * s.strideH + r, q * s.strideW + t) * b(k, c, r, t)
  }

  // ---- its other layouts ----

  function PaddedNhwc(s: Shape, a: Tensor4): Tensor4 {
    (n, h, w, c) =>
      if s.padH <= h < s.H + s.padH && s.padW <= w < s.W + s.padW then a(n, h - s.padH, w - s.padW, c) else 0.0
  }

  ghost function DirectNhwc(s: Shape, a: Tensor4, b: Tensor4, n: int, p: int, q: int, k: int): real {
    Sum3(s.R, s.S, s.C, NhwcTerm(s, a, b, n, k, p, q))
  }

  function NhwcTerm(s: Shape, a: Tensor4, b: Tensor4, n: int, k: int, p: int, q: int): (int, int, int) -> real {
    (r, t, c) => PaddedNhwc(s, a)(n, p * s.strideH + r, q * s.strideW + t, c) * b(r, t, c, k)
  }

  function PaddedHwnc(s: Shape, a: Tensor4): Tensor4 {
    (h, w, n, c) =>
      if s.padH <= h < s.H + s.padH && s.padW <= w < s.W + s.padW then a(h - s.padH, w - s.padW, n, c) else 0.0
  }

  ghost function DirectHwnc(s: Shape, a: Tensor4, b: Tensor4, p: int, q: int, n: int, k: int): real {
    Sum3(s.R, s.S, s.C, HwncTerm(s, a, b, n, k, p, q))
  }

  function HwncTerm(s: Shape, a: Tensor4, b: Tensor4, n: int, k: int, p: int, q: int): (int, int, int) -> real {
    (r, t, c) => PaddedHwnc(s, a)(p * s.strideH + r, q * s.strideW + t, n, c) * b(r, t, c, k)
  }

  function ToNhwc(a: Tensor4): Tensor4 { (n, h, w, c) => a(n, c, h, w) }

  function ToHwnc(a: Tensor4): Tensor4 { (h, w, n, c) => a(n, c, h, w) }

  function ToRsck(b: Tensor4): Tensor4 { (r, t, c, k) => b(k, c, r, t) }

  /** The three layouts compute one convolution of one tensor stored in three orders. */
  lemma LayoutsAgree(s: Shape, a: Tensor4, b: Tensor4, n: int, k: int, p: int, q: int)
    ensures DirectNhwc(s, ToNhwc(a), ToRsck(b), n, p, q, k) == Direct(s, a, b, n, k, p, q)
    ensures DirectHwnc(s, ToHwnc(a), ToRsck(b), p, q, n, k) == Direct(s, a, b, n, k, p, q)
  {
    var f := DirectTerm(s, a, b, n, k, p, q);
    var g := NhwcTerm(s, ToNhwc(a), ToRsck(b), n, k, p, q);
    var h := HwncTerm(s, ToHwnc(a), ToRsck(b), n, k, p, q);
    forall c, r, t
      ensures f(c, r, t) == g(r, t, c) && f(c, r, t) == h(r, t, c)
    {
      var x, y := p * s.strideH + r, q * s.strideW + t;
      assert Padded(s, a)(n, c, x, y) == PaddedNhwc(s, ToNhwc(a))(n, x, y, c);
      assert Padded(s, a)(n, c, x, y) == PaddedHwnc(s, ToHwnc(a))(x, y, n, c);
      assert b(k, c, r, t) == ToRsck(b)(r, t, c, k);
    }
    ChannelsLast(s.C, s.R, s.S, f, g);
    ChannelsLast(s.C, s.R, s.S, f, h);
  }

  lemma ChannelsLast(a: nat, b: nat, c: nat, f: (int, int, int) -> real, g: (int, int, int) -> real)
    requires forall i, j, k :: f(i, j, k) == g(j, k, i)
    ensures Sum3(a, b, c, f) == Sum3(b, c, a, g)
  {
    forall u, v | InBox([a], u) && InBox([b, c], v)
      ensures Lift3(f)(u + v) == Lift3(g)(v + u)
    {
    }
    BoxRotate([a], [b, c], Lift3(f), Lift3(g));
    assert [a] + [b, c] == [a, b, c] && [b, c] + [a] == [b, c, a];
  }
}
