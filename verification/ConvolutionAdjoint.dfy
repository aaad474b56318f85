/** The transposed convolution of the benchmarks against the forward one: each is the other's adjoint. */
module ConvolutionAdjoint {
  import opened Sums
  import opened Indices
  import opened Convolution
  import opened TransposedConv

  /** The transposed convolution that takes outputs of shape s back to its images. */
  function Backward(s: Shape): (g: Geometry)
    requires s.Valid()
  {
    Geometry(s.N, s.K, s.C,
             BackwardAxis(s.H, s.R, s.strideH, s.padH),
             BackwardAxis(s.W, s.S, s.strideW, s.padW))
  }

  function BackwardAxis(size: nat, kernel: nat, stride: nat, pad: nat): Axis
    requires stride >= 1 && kernel >= 1 && size + 2 * pad >= kernel
  {
    var rest := size + 2 * pad - kernel;
    Axis(OutputSize(size + 2 * pad, kernel, stride), kernel, stride, pad, rest % stride, 1)
  }

  /** The strided convolution's sizes are undone by the output padding that its division dropped. */
  lemma BackwardAxisFits(size: nat, kernel: nat, stride: nat, pad: nat)
    requires stride >= 1 && kernel >= 1 && size + 2 * pad >= kernel
    ensures BackwardAxis(size, kernel, stride, pad).Valid()
    ensures BackwardAxis(size, kernel, stride, pad).Out() == size
  {
    var rest := size + 2 * pad - kernel;
    assert rest == rest / stride * stride + rest % stride;
    QuotientNonNegative(rest, stride);
  }

  /** Every axis of a transposed convolution with dilation 1 and output padding below the stride is one of these. */
  lemma BackwardAxisIsAny(axis: Axis)
    requires axis.Valid() && axis.dilation == 1 && axis.outPad < axis.stride
    ensures axis.Out() + 2 * axis.pad >= axis.kernel
    ensures BackwardAxis(axis.Out(), axis.kernel, axis.stride, axis.pad) == axis
  {
    MulMonotone(0, axis.size - 1, axis.stride);
    DivMod((axis.size - 1) * axis.stride + axis.outPad, axis.stride, axis.size - 1, axis.outPad);
  }

  // ---- the common sum ----

  type Term9 = (int, int, int, int, int, int, int, int, int) -> real

  ghost function Lift9(f: Term9): Index -> real {
    v => if |v| == 9 then f(v[0], v[1], v[2], v[3], v[4], v[5], v[6], v[7], v[8]) else 0.0
  }

  /** Image (n, c, h, w), filter tap (k, c, r, t) and output (n, k, p, q), where they meet. */
  function Product(s: Shape, x: Tensor4, b: Tensor4, y: Tensor4,
                   n: int, c: int, h: int, w: int, k: int, p: int, q: int, r: int, t: int): real
    requires s.Valid()
  {
    if Meets(Backward(s).h, p, r, h) && Meets(Backward(s).w, q, t, w)
    then x(n, c, h, w) * (b(k, c, r, t) * y(n, k, p, q)) else 0.0
  }

  function ByOutput(s: Shape, x: Tensor4, b: Tensor4, y: Tensor4): Term9
    requires s.Valid()
  {
    (n, k, p, q, c, r, t, h, w) => Product(s, x, b, y, n, c, h, w, k, p, q, r, t)
  }

  function ByImage(s: Shape, x: Tensor4, b: Tensor4, y: Tensor4): Term9
    requires s.Valid()
  {
    (n, c, h, w, k, p, q, r, t) => Product(s, x, b, y, n, c, h, w, k, p, q, r, t)
  }

  function Between(s: Shape, x: Tensor4, b: Tensor4, y: Tensor4): Term9
    requires s.Valid()
  {
    (n, c, r, t, h, w, k, p, q) => Product(s, x, b, y, n, c, h, w, k, p, q, r, t)
  }

  lemma SameSum(s: Shape, x: Tensor4, b: Tensor4, y: Tensor4, P: nat, Q: nat)
    requires s.Valid()
    ensures SumBox([s.N, s.K, P, Q] + [s.C, s.R, s.S, s.H, s.W], Lift9(ByOutput(s, x, b, y))) ==
            SumBox([s.N, s.C, s.H, s.W] + [s.K, P, Q, s.R, s.S], Lift9(ByImage(s, x, b, y)))
  {
    hide SumBox, Product, Shape.Valid;
    FirstTurn(s.N, [s.K, P, Q], [s.C, s.R, s.S, s.H, s.W], s, x, b, y);
    SecondTurn([s.N, s.C], [s.R, s.S], [s.H, s.W, s.K, P, Q], s, x, b, y);
    assert [s.N, s.K, P, Q] + [s.C, s.R, s.S, s.H, s.W] == [s.N] + ([s.K, P, Q] + [s.C, s.R, s.S, s.H, s.W]);
    assert [s.N] + ([s.C, s.R, s.S, s.H, s.W] + [s.K, P, Q]) == [s.N, s.C] + ([s.R, s.S] + [s.H, s.W, s.K, P, Q]);
    assert [s.N, s.C] + ([s.H, s.W, s.K, P, Q] + [s.R, s.S]) == [s.N, s.C, s.H, s.W] + [s.K, P, Q, s.R, s.S];
  }

  lemma FirstTurn(n: nat, d: seq<nat>, e: seq<nat>, s: Shape, x: Tensor4, b: Tensor4, y: Tensor4)
    requires s.Valid() && |d| == 3 && |e| == 5
    ensures SumBox([n] + (d + e), Lift9(ByOutput(s, x, b, y))) == SumBox([n] + (e + d), Lift9(Between(s, x, b, y)))
  {
    hide SumBox, Product, Shape.Valid;
    BoxRotateUnder([n], d, e, Lift9(ByOutput(s, x, b, y)), Lift9(Between(s, x, b, y)));
  }

  lemma SecondTurn(pre: seq<nat>, d: seq<nat>, e: seq<nat>, s: Shape, x: Tensor4, b: Tensor4, y: Tensor4)
    requires s.Valid() && |pre| == 2 && |d| == 2 && |e| == 5
    ensures SumBox(pre + (d + e), Lift9(Between(s, x, b, y))) == SumBox(pre + (e + d), Lift9(ByImage(s, x, b, y)))
  {
    hide SumBox, Product, Shape.Valid;
    BoxRotateUnder(pre, d, e, Lift9(Between(s, x, b, y)), Lift9(ByImage(s, x, b, y)));
  }

  // ---- the forward side ----

  /** The pixels that land on position (u, v) of the padded image. */
  function Pixels(s: Shape, x: Tensor4, n: int, c: int, u: int, v: int): (int, int) -> real {
    (h, w) => if h + s.padH == u && w + s.padW == v then x(n, c, h, w) else 0.0
  }

  lemma PaddedEntry(s: Shape, x: Tensor4, n: int, c: int, u: int, v: int)
    ensures Padded(s, x)(n, c, u, v) == SumBox([s.H, s.W], Lift2(Pixels(s, x, n, c, u, v)))
  {
    hide SumBox;
    Sum2Pick(s.H, s.W, u - s.padH, v - s.padW, Lift2(Pixels(s, x, n, c, u, v)));
  }

  function ForwardTerm(s: Shape, x: Tensor4, b: Tensor4, n: int, k: int, p: int, q: int): Term5
    requires s.Valid()
  {
    (c, r, t, h, w) =>
      if Meets(Backward(s).h, p, r, h) && Meets(Backward(s).w, q, t, w) then x(n, c, h, w) * b(k, c, r, t) else 0.0
  }

  lemma DirectTermSums(s: Shape, x: Tensor4, b: Tensor4, n: int, k: int, p: int, q: int, u: Index)
    requires s.Valid() && |u| == 3
    ensures Lift3(DirectTerm(s, x, b, n, k, p, q))(u) ==
            SumSecond([s.H, s.W], OnPair(Lift5(ForwardTerm(s, x, b, n, k, p, q))))(u)
  {
    hide SumBox, Padded;
    var c, r, t := u[0], u[1], u[2];
    var tap, i, j := b(k, c, r, t), p * s.strideH + r, q * s.strideW + t;
    PaddedEntry(s, x, n, c, i, j);
    var entries := Lift2(Pixels(s, x, n, c, i, j));
    var terms := Second(OnPair(Lift5(ForwardTerm(s, x, b, n, k, p, q))), u);
    forall v | InBox([s.H, s.W], v)
      ensures terms(v) == tap * entries(v)
    {
      Apply5(ForwardTerm(s, x, b, n, k, p, q), u, v);
      assert Meets(Backward(s).h, p, r, v[0]) <==> v[0] + s.padH == i;
      assert Meets(Backward(s).w, q, t, v[1]) <==> v[1] + s.padW == j;
    }
    BoxScale([s.H, s.W], tap, entries, terms);
  }

  lemma DirectSpreads(s: Shape, x: Tensor4, b: Tensor4, n: int, k: int, p: int, q: int)
    requires s.Valid()
    ensures Direct(s, x, b, n, k, p, q) ==
            SumBox([s.C, s.R, s.S, s.H, s.W], Lift5(ForwardTerm(s, x, b, n, k, p, q)))
  {
    hide SumBox, SumSecond, Shape.Valid, DirectTerm, ForwardTerm, Lift3, Lift5;
    var terms, spread := Lift3(DirectTerm(s, x, b, n, k, p, q)), Lift5(ForwardTerm(s, x, b, n, k, p, q));
    forall u | InBox([s.C, s.R, s.S], u)
      ensures terms(u) == SumSecond([s.H, s.W], OnPair(spread))(u)
    {
      DirectTermSums(s, x, b, n, k, p, q, u);
    }
    BoxExt([s.C, s.R, s.S], terms, SumSecond([s.H, s.W], OnPair(spread)));
    BoxSplit([s.C, s.R, s.S], [s.H, s.W], spread);
    assert [s.C, s.R, s.S] + [s.H, s.W] == [s.C, s.R, s.S, s.H, s.W];
  }

  /** The convolution of x at every output, times y there. */
  ghost function ForwardProduct(s: Shape, x: Tensor4, b: Tensor4, y: Tensor4): (int, int, int, int) -> real {
    (n, k, p, q) => Direct(s, x, b, n, k, p, q) * y(n, k, p, q)
  }

  lemma ForwardSide(s: Shape, x: Tensor4, b: Tensor4, y: Tensor4, u: Index)
    requires s.Valid() && |u| == 4
    ensures Lift4(ForwardProduct(s, x, b, y))(u) ==
            SumSecond([s.C, s.R, s.S, s.H, s.W], OnPair(Lift9(ByOutput(s, x, b, y))))(u)
  {
    hide SumBox, Shape.Valid, Direct;
    var n, k, p, q := u[0], u[1], u[2], u[3];
    var dims, c := [s.C, s.R, s.S, s.H, s.W], y(n, k, p, q);
    var inner, outer := Lift5(ForwardTerm(s, x, b, n, k, p, q)), Second(OnPair(Lift9(ByOutput(s, x, b, y))), u);
    DirectSpreads(s, x, b, n, k, p, q);
    forall v | InBox(dims, v)
      ensures outer(v) == c * inner(v)
    {
      Apply9(ByOutput(s, x, b, y), u, v);
    }
    BoxScale(dims, c, inner, outer);
  }

  lemma Apply9(f: Term9, u: Index, v: Index)
    requires |u| == 4 && |v| == 5
    ensures Lift9(f)(u + v) == f(u[0], u[1], u[2], u[3], v[0], v[1], v[2], v[3], v[4])
  {}

  // ---- the backward side ----

  /** x at every pixel, times the transposed convolution of y there. */
  ghost function BackwardProduct(s: Shape, x: Tensor4, b: Tensor4, y: Tensor4): (int, int, int, int) -> real
    requires s.Valid() && Backward(s).Valid()
  {
    (n, c, h, w) => x(n, c, h, w) * Gather(Backward(s), y, b, n, c, h, w)
  }

  lemma BackwardSide(s: Shape, x: Tensor4, b: Tensor4, y: Tensor4, u: Index)
    requires s.Valid() && Backward(s).Valid() && |u| == 4
    ensures Lift4(BackwardProduct(s, x, b, y))(u) ==
            SumSecond([s.K, s.P(), s.Q(), s.R, s.S], OnPair(Lift9(ByImage(s, x, b, y))))(u)
  {
    hide SumBox, Shape.Valid, Gather, Geometry.Valid, OutputSize;
    var n, c, h, w := u[0], u[1], u[2], u[3];
    var dims, pixel := [s.K, s.P(), s.Q(), s.R, s.S], x(n, c, h, w);
    var inner := Lift5(ScatterTerm(Backward(s), y, b, n, c, h, w));
    var outer := Second(OnPair(Lift9(ByImage(s, x, b, y))), u);
    GatherIsScatter(Backward(s), y, b, n, c, h, w);
    forall v | InBox(dims, v)
      ensures outer(v) == pixel * inner(v)
    {
      Apply9(ByImage(s, x, b, y), u, v);
    }
    BoxScale(dims, pixel, inner, outer);
  }

  // ---- the theorem ----

  /**
   Pairing the convolution of x with y is pairing x with the transposed convolution of y: for every
   shape, stride and padding, every filter b and every x and y.
   */
  lemma TransposedIsAdjoint(s: Shape, x: Tensor4, b: Tensor4, y: Tensor4)
    requires s.Valid()
    ensures Backward(s).Valid() && Backward(s).h.Out() == s.H && Backward(s).w.Out() == s.W
    ensures Sum4(s.N, s.K, s.P(), s.Q(), ForwardProduct(s, x, b, y)) ==
            Sum4(s.N, s.C, s.H, s.W, BackwardProduct(s, x, b, y))
  {
    BackwardAxisFits(s.H, s.R, s.strideH, s.padH);
    BackwardAxisFits(s.W, s.S, s.strideW, s.padW);
    SidesMeet(s, x, b, y);
  }

  lemma SidesMeet(s: Shape, x: Tensor4, b: Tensor4, y: Tensor4)
    requires s.Valid() && Backward(s).Valid()
    ensures Sum4(s.N, s.K, s.P(), s.Q(), ForwardProduct(s, x, b, y)) ==
            Sum4(s.N, s.C, s.H, s.W, BackwardProduct(s, x, b, y))
  {
    hide SumBox, SumSecond, Shape.Valid, Shape.P, Shape.Q, Geometry.Valid, Lift4, Lift9;
    var outputs, images := [s.N, s.K, s.P(), s.Q()], [s.N, s.C, s.H, s.W];
    var fwd := SumSecond([s.C, s.R, s.S, s.H, s.W], OnPair(Lift9(ByOutput(s, x, b, y))));
    var bwd := SumSecond([s.K, s.P(), s.Q(), s.R, s.S], OnPair(Lift9(ByImage(s, x, b, y))));
    forall u | InBox(outputs, u)
      ensures Lift4(ForwardProduct(s, x, b, y))(u) == fwd(u)
    {
      ForwardSide(s, x, b, y, u);
    }
    forall u | InBox(images, u)
      ensures Lift4(BackwardProduct(s, x, b, y))(u) == bwd(u)
    {
      BackwardSide(s, x, b, y, u);
    }
    BoxExt(outputs, Lift4(ForwardProduct(s, x, b, y)), fwd);
    BoxExt(images, Lift4(BackwardProduct(s, x, b, y)), bwd);
    BoxSplit(outputs, [s.C, s.R, s.S, s.H, s.W], Lift9(ByOutput(s, x, b, y)));
    BoxSplit(images, [s.K, s.P(), s.Q(), s.R, s.S], Lift9(ByImage(s, x, b, y)));
    SameSum(s, x, b, y, s.P(), s.Q());
  }
}
