/** benchmark/amos/mapping_transposedconv2d_tensorcore.py: transposed convolution by gathering. */
module TransposedConv {
  import opened Sums
  import opened Indices
  import opened Convolution

  /** One axis: input extent, kernel extent, stride, padding, output padding, dilation. */
  datatype Axis = Axis(size: nat, kernel: nat, stride: nat, pad: nat, outPad: nat, dilation: nat) {
    predicate Valid() {
      size >= 1 && kernel >= 1 && stride >= 1 && dilation >= 1 && Out() >= 0
    }

    /** The extent of the dilated kernel. */
    function Kernel(): int { (kernel - 1) * dilation + 1 }

    /** The extent of the output. */
    function Out(): int { (size - 1) * stride - 2 * pad + Kernel() + outPad }

    /** The extent of the input with zeros between its entries. */
    function Expanded(): int { (size - 1) * stride + 1 }

    /** Zeros before the expanded input; negative means cut off. */
    function Before(): int { Kernel() - 1 - pad }

    /** The extent of the padded tensor. */
    function Padded(): int { Expanded() + Before() + (Before() + outPad) }
  }

  datatype Geometry = Geometry(N: nat, K: nat, C: nat, h: Axis, w: Axis) {
    predicate Valid() { h.Valid() && w.Valid() }
  }

  // ---- the source's lambdas ----

  function ZeroExpand(g: Geometry, a: Tensor4): Tensor4
    requires g.Valid()
  {
    (b, c, h, w) => if h % g.h.stride == 0 && w % g.w.stride == 0 then a(b, c, h / g.h.stride, w / g.w.stride) else 0.0
  }

  function ZeroPad(g: Geometry, a: Tensor4): Tensor4 {
    (b, c, h, w) =>
      if g.h.Before() <= h < g.h.Expanded() + g.h.Before() && g.w.Before() <= w < g.w.Expanded() + g.w.Before()
      then a(b, c, h - g.h.Before(), w - g.w.Before()) else 0.0
  }

  /** The flipped kernel slides over the padded, expanded input. */
  ghost function Gather(g: Geometry, a: Tensor4, k: Tensor4, b: int, c: int, h: int, w: int): real
    requires g.Valid()
  {
    Sum3(g.K, g.w.kernel, g.h.kernel, GatherTerm(g, a, k, b, c, h, w))
  }

  function GatherTerm(g: Geometry, a: Tensor4, k: Tensor4, b: int, c: int, h: int, w: int): (int, int, int) -> real
    requires g.Valid()
  {
    (rc, rw, rh) => ZeroPad(g, ZeroExpand(g, a))(b, rc, h + rh * g.h.dilation, w + rw * g.w.dilation)
                    * k(rc, c, g.h.kernel - rh - 1, g.w.kernel - rw - 1)
  }

  // ---- the definition by scattering ----

  /** Input i and tap r of the axis meet at output x. */
  predicate Meets(axis: Axis, i: int, r: int, x: int) {
    i * axis.stride + r * axis.dilation - axis.pad == x
  }

  /** Every input times every tap, added up where they meet. */
  ghost function Scatter(g: Geometry, a: Tensor4, k: Tensor4, b: int, c: int, h: int, w: int): real {
    SumBox([g.K, g.h.size, g.w.size, g.h.kernel, g.w.kernel], Lift5(ScatterTerm(g, a, k, b, c, h, w)))
  }

  function ScatterTerm(g: Geometry, a: Tensor4, k: Tensor4, b: int, c: int, h: int, w: int): Term5 {
    (m, i, j, r, t) => if Meets(g.h, i, r, h) && Meets(g.w, j, t, w) then a(b, m, i, j) * k(m, c, r, t) else 0.0
  }

  type Term5 = (int, int, int, int, int) -> real

  // ---- one axis ----

  /** Position x of the expanded axis, if it holds an entry. */
  predicate Holds(axis: Axis, x: int)
    requires axis.stride >= 1
  {
    0 <= x < axis.Expanded() && x % axis.stride == 0
  }

  /** Where an entry sits: its index, or -1. */
  function EntryAt(axis: Axis, x: int): int
    requires axis.stride >= 1
  {
    if Holds(axis, x) then x / axis.stride else -1
  }

  lemma EntryAtIff(axis: Axis, x: int)
    requires axis.Valid()
    ensures -1 <= EntryAt(axis, x) < axis.size
    ensures 0 <= EntryAt(axis, x) <==> Holds(axis, x)
    ensures forall i :: 0 <= i < axis.size && i * axis.stride == x ==> EntryAt(axis, x) == i
    ensures 0 <= EntryAt(axis, x) ==> EntryAt(axis, x) * axis.stride == x
  {
    var s := axis.stride;
    if Holds(axis, x) { QuotientInRange(x, axis.size, s); }
    forall i | 0 <= i < axis.size && i * s == x
      ensures EntryAt(axis, x) == i
    {
      DivMod(x, s, i, 0);
      MulMonotone(i, axis.size - 1, s);
      MulMonotone(0, i, s);
    }
  }

  lemma QuotientInRange(x: int, n: int, s: int)
    requires s >= 1 && 0 <= x < (n - 1) * s + 1 && x % s == 0
    ensures 0 <= x / s < n && x / s * s == x
  {
    var q := x / s;
    assert x == q * s + x % s;
    if q <= -1 { MulMonotone(q, -1, s); }
    if q >= n { MulMonotone(n, q, s); MulDistribute(n - 1, 1, s); }
  }

  /** The padded, expanded input at a position, as a sum over the entries that land there. */
  lemma GatheredEntry(g: Geometry, a: Tensor4, b: int, c: int, x: int, y: int, f: Index -> real)
    requires g.Valid()
    requires forall i, j :: f([i, j]) ==
               (if i * g.h.stride == x - g.h.Before() && j * g.w.stride == y - g.w.Before() then a(b, c, i, j) else 0.0)
    ensures ZeroPad(g, ZeroExpand(g, a))(b, c, x, y) == SumBox([g.h.size, g.w.size], f)
  {
    hide Axis.Expanded, Axis.Before, SumBox;
    var u, v := x - g.h.Before(), y - g.w.Before();
    EntryAtIff(g.h, u);
    EntryAtIff(g.w, v);
    var i0, j0 := EntryAt(g.h, u), EntryAt(g.w, v);
    Sum2Pick(g.h.size, g.w.size, i0, j0, f);
    if 0 <= i0 && 0 <= j0 {
      assert f([i0, j0]) == a(b, c, i0, j0);
    }
  }

  // ---- gathering is scattering ----

  /** Tap number r of the gather, read from the far end, meets what the scatter's tap meets. */
  lemma MeetsFlipped(axis: Axis, i: int, r: int, x: int)
    ensures Meets(axis, i, axis.kernel - 1 - r, x) <==> i * axis.stride == x + r * axis.dilation - axis.Before()
  {
    MulDistribute(axis.kernel - 1 - r, r, axis.dilation);
  }

  /** f of (m, i, j, r, t), by channel, tap counted from the far end and entry. */
  function Flipped(R: int, T: int, f: Term5): Term5 {
    (m, t, r, i, j) => f(m, i, j, R - 1 - r, T - 1 - t)
  }

  /** The entries of the input that land on position (x, y) of the padded tensor. */
  function Entries(g: Geometry, a: Tensor4, b: int, c: int, x: int, y: int): (int, int) -> real {
    (i, j) => if i * g.h.stride == x - g.h.Before() && j * g.w.stride == y - g.w.Before() then a(b, c, i, j) else 0.0
  }

  lemma TermIsTapTimesEntry(
    g: Geometry, a: Tensor4, k: Tensor4, b: int, c: int, h: int, w: int, m: int, t: int, r: int, i: int, j: int)
    ensures Flipped(g.h.kernel, g.w.kernel, ScatterTerm(g, a, k, b, c, h, w))(m, t, r, i, j) ==
            k(m, c, g.h.kernel - r - 1, g.w.kernel - t - 1)
            * Entries(g, a, b, m, h + r * g.h.dilation, w + t * g.w.dilation)(i, j)
  {
    hide Axis.Before, Meets;
    MeetsFlipped(g.h, i, r, h);
    MeetsFlipped(g.w, j, t, w);
  }

  /** One term of the gather is the sum of the scatter's terms that share its channel and tap. */
  lemma GatherTermSums(g: Geometry, a: Tensor4, k: Tensor4, b: int, c: int, h: int, w: int, u: Index)
    requires g.Valid() && |u| == 3
    ensures Lift3(GatherTerm(g, a, k, b, c, h, w))(u) ==
            SumSecond([g.h.size, g.w.size],
                      OnPair(Lift5(Flipped(g.h.kernel, g.w.kernel, ScatterTerm(g, a, k, b, c, h, w)))))(u)
  {
    hide SumBox, Axis.Before, ZeroPad, ZeroExpand, Geometry.Valid, Flipped, ScatterTerm, Entries;
    var x, y := h + u[2] * g.h.dilation, w + u[1] * g.w.dilation;
    var tap := k(u[0], c, g.h.kernel - u[2] - 1, g.w.kernel - u[1] - 1);
    var entries := Lift2(Entries(g, a, b, u[0], x, y));
    EntriesSum(g, a, b, u[0], x, y);
    var terms := Second(OnPair(Lift5(Flipped(g.h.kernel, g.w.kernel, ScatterTerm(g, a, k, b, c, h, w)))), u);
    forall v | InBox([g.h.size, g.w.size], v)
      ensures terms(v) == tap * entries(v)
    {
      TermIsTapTimesEntry(g, a, k, b, c, h, w, u[0], u[1], u[2], v[0], v[1]);
      Apply5(Flipped(g.h.kernel, g.w.kernel, ScatterTerm(g, a, k, b, c, h, w)), u, v);
    }
    BoxScale([g.h.size, g.w.size], tap, entries, terms);
  }

  lemma Apply5(f: Term5, u: Index, v: Index)
    requires |u| == 3 && |v| == 2
    ensures Lift5(f)(u + v) == f(u[0], u[1], u[2], v[0], v[1])
  {}

  lemma EntriesSum(g: Geometry, a: Tensor4, b: int, c: int, x: int, y: int)
    requires g.Valid()
    ensures ZeroPad(g, ZeroExpand(g, a))(b, c, x, y) == SumBox([g.h.size, g.w.size], Lift2(Entries(g, a, b, c, x, y)))
  {
    hide SumBox, Axis.Before, ZeroPad, ZeroExpand, Geometry.Valid;
    GatheredEntry(g, a, b, c, x, y, Lift2(Entries(g, a, b, c, x, y)));
  }

  /** The transposed convolution adds up every input times every tap where they meet. */
  lemma GatherIsScatter(g: Geometry, a: Tensor4, k: Tensor4, b: int, c: int, h: int, w: int)
    requires g.Valid()
    ensures Gather(g, a, k, b, c, h, w) == Scatter(g, a, k, b, c, h, w)
  {
    hide SumBox, SumSecond, ScatterTerm, Geometry.Valid, Flipped, GatherTerm, Lift3, Lift5;
    var K, I, J, R, T := g.K, g.h.size, g.w.size, g.h.kernel, g.w.kernel;
    var taps, terms := Lift3(GatherTerm(g, a, k, b, c, h, w)), ScatterTerm(g, a, k, b, c, h, w);
    var byTap := SumSecond([I, J], OnPair(Lift5(Flipped(R, T, terms))));
    forall u | InBox([K, T, R], u)
      ensures taps(u) == byTap(u)
    {
      GatherTermSums(g, a, k, b, c, h, w, u);
    }
    BoxExt([K, T, R], taps, byTap);
    BoxSplit([K, T, R], [I, J], Lift5(Flipped(R, T, terms)));
    EntriesBeforeTaps(K, I, J, R, T, terms);
    RowsBeforeColumns(K, I, J, R, T, terms);
    TapsForward(K, I, J, R, T, terms);
  }

  function EntriesFirst(R: int, T: int, f: Term5): Term5 {
    (m, i, j, t, r) => f(m, i, j, R - 1 - r, T - 1 - t)
  }

  lemma EntriesBeforeTaps(K: nat, I: nat, J: nat, R: nat, T: nat, f: Term5)
    ensures SumBox([K, T, R] + [I, J], Lift5(Flipped(R, T, f))) == SumBox([K, I, J, T, R], Lift5(EntriesFirst(R, T, f)))
  {
    hide SumBox;
    BoxRotateUnder([K], [T, R], [I, J], Lift5(Flipped(R, T, f)), Lift5(EntriesFirst(R, T, f)));
    assert [K, T, R] + [I, J] == [K] + ([T, R] + [I, J]);
    assert [K, I, J, T, R] == [K] + ([I, J] + [T, R]);
  }

  function RowsFirst(R: int, T: int, f: Term5): Term5 {
    (m, i, j, r, t) => f(m, i, j, R - 1 - r, T - 1 - t)
  }

  lemma RowsBeforeColumns(K: nat, I: nat, J: nat, R: nat, T: nat, f: Term5)
    ensures SumBox([K, I, J, T, R], Lift5(EntriesFirst(R, T, f))) == SumBox([K, I, J, R, T], Lift5(RowsFirst(R, T, f)))
  {
    hide SumBox;
    BoxRotateUnder([K, I, J], [T], [R], Lift5(EntriesFirst(R, T, f)), Lift5(RowsFirst(R, T, f)));
    assert [K, I, J, T, R] == [K, I, J] + ([T] + [R]);
    assert [K, I, J, R, T] == [K, I, J] + ([R] + [T]);
  }

  lemma TapsForward(K: nat, I: nat, J: nat, R: nat, T: nat, f: Term5)
    ensures SumBox([K, I, J, R, T], Lift5(RowsFirst(R, T, f))) == SumBox([K, I, J, R, T], Lift5(f))
  {
    hide SumBox;
    Sum2ReverseUnder([K, I, J], R, T, Lift5(RowsFirst(R, T, f)), Lift5(f));
    assert [K, I, J, R, T] == [K, I, J] + [R, T];
  }

  // ---- sizes ----

  /**
   Every element the gather reads lies in the padded tensor, and what it is padded from in the input;
   the last read is of the last element.
   */
  lemma GatherReadsInBounds(axis: Axis, x: int, r: int)
    requires axis.Valid() && 0 <= x < axis.Out() && 0 <= r < axis.kernel
    ensures var y := x + r * axis.dilation;
            && 0 <= y < axis.Padded()
            && (Holds(axis, y - axis.Before()) ==> 0 <= (y - axis.Before()) / axis.stride < axis.size)
    ensures (axis.Out() - 1) + (axis.kernel - 1) * axis.dilation == axis.Padded() - 1
  {
    MulMonotone(r, axis.kernel - 1, axis.dilation);
    MulMonotone(0, r, axis.dilation);
    var z := x + r * axis.dilation - axis.Before();
    if Holds(axis, z) { QuotientInRange(z, axis.size, axis.stride); }
  }

  /** Convolving the output's extent gives the input's back exactly when less than a stride was added to it. */
  lemma SizesInvert(axis: Axis)
    requires axis.Valid()
    ensures 1 <= axis.Kernel() <= axis.Out() + 2 * axis.pad
    ensures OutputSize(axis.Out() + 2 * axis.pad, axis.Kernel(), axis.stride) == axis.size <==> axis.outPad < axis.stride
  {
    MulMonotone(0, axis.size - 1, axis.stride);
    MulMonotone(0, axis.kernel - 1, axis.dilation);
    var x, s := (axis.size - 1) * axis.stride + axis.outPad, axis.stride;
    if axis.outPad < s {
      DivMod(x, s, axis.size - 1, axis.outPad);
    } else {
      var q := axis.outPad / s;
      assert axis.outPad == q * s + axis.outPad % s;
      if q <= 0 { MulMonotone(q, 0, s); }
      MulDistribute(axis.size - 1, q, s);
      DivMod(x, s, axis.size - 1 + q, axis.outPad % s);
    }
  }
}
