/** Finite sums over boxes of indices, and their re-indexing. */
module Sums {

  /** f(0) + ... + f(n - 1) */
  ghost function Sum(n: nat, f: int -> real): real {
    if n == 0 then 0.0 else Sum(n - 1, f) + f(n - 1)
  }

  type Index = seq<int>

  /** The sum of f over every index vector of the box. */
  ghost function SumBox(dims: seq<nat>, f: Index -> real): real
    decreases |dims|, 0
  {
    if dims == [] then f([]) else Sum(dims[0], Slices(dims[1..], f))
  }

  /** The sums over the rest of the box, by first index. */
  ghost function Slices(rest: seq<nat>, f: Index -> real): int -> real
    decreases |rest|, 1
  {
    i => SumBox(rest, Fix(f, i))
  }

  /** f with its first index fixed */
  ghost function Fix(f: Index -> real, i: int): Index -> real {
    v => f([i] + v)
  }

  ghost predicate InBox(dims: seq<nat>, v: Index) {
    |v| == |dims| && forall k :: 0 <= k < |dims| ==> 0 <= v[k] < dims[k]
  }

  // ---- one sum ----

  lemma {:induction false} SumExt(n: nat, f: int -> real, g: int -> real)
    requires forall i :: 0 <= i < n ==> f(i) == g(i)
    ensures Sum(n, f) == Sum(n, g)
  {
    if n > 0 { SumExt(n - 1, f, g); }
  }

  lemma {:induction false} SumZero(n: nat, f: int -> real)
    requires forall i :: 0 <= i < n ==> f(i) == 0.0
    ensures Sum(n, f) == 0.0
  {
    if n > 0 { SumZero(n - 1, f); }
  }

  lemma {:induction false} SumAdd(n: nat, f: int -> real, g: int -> real, h: int -> real)
    requires forall i :: 0 <= i < n ==> h(i) == f(i) + g(i)
    ensures Sum(n, h) == Sum(n, f) + Sum(n, g)
  {
    if n > 0 { SumAdd(n - 1, f, g, h); }
  }

  lemma {:induction false} SumScale(n: nat, c: real, f: int -> real, h: int -> real)
    requires forall i :: 0 <= i < n ==> h(i) == c * f(i)
    ensures Sum(n, h) == c * Sum(n, f)
  {
    if n > 0 {
      SumScale(n - 1, c, f, h);
      assert c * (Sum(n - 1, f) + f(n - 1)) == c * Sum(n - 1, f) + c * f(n - 1);
    }
  }

  lemma {:induction false} SumConcat(m: nat, n: nat, f: int -> real, g: int -> real)
    requires forall i :: 0 <= i < n ==> g(i) == f(m + i)
    ensures Sum(m + n, f) == Sum(m, f) + Sum(n, g)
  {
    if n > 0 { SumConcat(m, n - 1, f, g); }
  }

  /** Terms from m on are zero. */
  lemma {:induction false} SumTruncate(m: nat, n: nat, f: int -> real)
    requires m <= n && forall i :: m <= i < n ==> f(i) == 0.0
    ensures Sum(n, f) == Sum(m, f)
  {
    if m < n { SumTruncate(m, n - 1, f); }
  }

  lemma {:induction false} SumReverse(n: nat, f: int -> real, g: int -> real)
    requires forall i :: 0 <= i < n ==> g(i) == f(n - 1 - i)
    ensures Sum(n, f) == Sum(n, g)
  {
    if n > 0 {
      var rest := i => g(1 + i);
      SumConcat(1, n - 1, g, rest);
      SumReverse(n - 1, f, rest);
      assert Sum(1, g) == Sum(0, g) + g(0);
    }
  }

  /** A sum with at most one term. */
  lemma {:induction false} SumPick(n: nat, k: int, f: int -> real)
    requires forall i :: 0 <= i < n && i != k ==> f(i) == 0.0
    ensures Sum(n, f) == if 0 <= k < n then f(k) else 0.0
  {
    if n > 0 { SumPick(n - 1, k, f); }
  }

  /** A sum over a * b terms is a sum of a rows of b terms. */
  lemma {:induction false} SumRows(a: nat, b: nat, f: int -> real, rows: int -> real)
    requires forall i :: 0 <= i < a ==> rows(i) == Sum(b, Row(f, b, i))
    ensures a * b >= 0
    ensures Sum(a * b, f) == Sum(a, rows)
  {
    if a > 0 {
      SumRows(a - 1, b, f, rows);
      assert a * b == (a - 1) * b + b;
      SumConcat((a - 1) * b, b, f, Row(f, b, a - 1));
    }
  }

  /** The i-th row of b terms */
  ghost function Row(f: int -> real, b: int, i: int): int -> real {
    j => f(i * b + j)
  }

  // ---- sums over boxes ----

  lemma {:induction false} BoxExt(dims: seq<nat>, f: Index -> real, g: Index -> real)
    requires forall v :: InBox(dims, v) ==> f(v) == g(v)
    ensures SumBox(dims, f) == SumBox(dims, g)
    decreases |dims|
  {
    if dims == [] {
      assert InBox(dims, []);
    } else {
      var rest := dims[1..];
      forall i | 0 <= i < dims[0]
        ensures Slices(rest, f)(i) == Slices(rest, g)(i)
      {
        forall v | InBox(rest, v)
          ensures Fix(f, i)(v) == Fix(g, i)(v)
        {
          InBoxCons(dims, i, v);
        }
        BoxExt(rest, Fix(f, i), Fix(g, i));
      }
      SumExt(dims[0], Slices(rest, f), Slices(rest, g));
    }
  }

  lemma InBoxCons(dims: seq<nat>, i: int, v: Index)
    requires dims != [] && 0 <= i < dims[0] && InBox(dims[1..], v)
    ensures InBox(dims, [i] + v)
  {
    forall k | 0 <= k < |dims|
      ensures 0 <= ([i] + v)[k] < dims[k]
    {
      if k > 0 { assert dims[1..][k - 1] == dims[k]; }
    }
  }

  lemma {:induction false} BoxScale(dims: seq<nat>, c: real, f: Index -> real, h: Index -> real)
    requires forall v :: InBox(dims, v) ==> h(v) == c * f(v)
    ensures SumBox(dims, h) == c * SumBox(dims, f)
    decreases |dims|
  {
    if dims == [] {
      assert InBox(dims, []);
    } else {
      var rest := dims[1..];
      forall i | 0 <= i < dims[0]
        ensures Slices(rest, h)(i) == c * Slices(rest, f)(i)
      {
        forall v | InBox(rest, v)
          ensures Fix(h, i)(v) == c * Fix(f, i)(v)
        {
          InBoxCons(dims, i, v);
        }
        BoxScale(rest, c, Fix(f, i), Fix(h, i));
      }
      SumScale(dims[0], c, Slices(rest, f), Slices(rest, h));
    }
  }

  /** f(u, .) summed, as a function of u */
  ghost function SumSecond(d: seq<nat>, f: (Index, Index) -> real): Index -> real {
    u => SumBox(d, Second(f, u))
  }

  /** f(., v) summed, as a function of v */
  ghost function SumFirst(d: seq<nat>, f: (Index, Index) -> real): Index -> real {
    v => SumBox(d, First(f, v))
  }

  ghost function Second(f: (Index, Index) -> real, u: Index): Index -> real { v => f(u, v) }

  ghost function First(f: (Index, Index) -> real, v: Index): Index -> real { u => f(u, v) }

  /** f with the first component of its first index fixed */
  ghost function FixFirst(f: (Index, Index) -> real, i: int): (Index, Index) -> real {
    (u, v) => f([i] + u, v)
  }

  ghost function RowOf(f: (int, Index) -> real, i: int): Index -> real { v => f(i, v) }

  ghost function ColumnOf(f: (int, Index) -> real, v: Index): int -> real { i => f(i, v) }

  ghost function RowTotals(d: seq<nat>, f: (int, Index) -> real): int -> real { i => SumBox(d, RowOf(f, i)) }

  ghost function ColumnTotals(n: nat, f: (int, Index) -> real): Index -> real { v => Sum(n, ColumnOf(f, v)) }

  lemma {:induction false} BoxZero(dims: seq<nat>, f: Index -> real)
    requires forall v :: InBox(dims, v) ==> f(v) == 0.0
    ensures SumBox(dims, f) == 0.0
  {
    BoxScale(dims, 0.0, f, f);
  }

  lemma {:induction false} BoxAdd(dims: seq<nat>, f: Index -> real, g: Index -> real, h: Index -> real)
    requires forall v :: InBox(dims, v) ==> h(v) == f(v) + g(v)
    ensures SumBox(dims, h) == SumBox(dims, f) + SumBox(dims, g)
    decreases |dims|
  {
    if dims == [] {
      assert InBox(dims, []);
    } else {
      var rest := dims[1..];
      forall i | 0 <= i < dims[0]
        ensures Slices(rest, h)(i) == Slices(rest, f)(i) + Slices(rest, g)(i)
      {
        forall v | InBox(rest, v)
          ensures Fix(h, i)(v) == Fix(f, i)(v) + Fix(g, i)(v)
        {
          InBoxCons(dims, i, v);
        }
        BoxAdd(rest, Fix(f, i), Fix(g, i), Fix(h, i));
      }
      SumAdd(dims[0], Slices(rest, f), Slices(rest, g), Slices(rest, h));
    }
  }

  /** A sum and a box sum exchange. */
  lemma {:induction false} SumBoxExchange(n: nat, d: seq<nat>, f: (int, Index) -> real)
    ensures Sum(n, RowTotals(d, f)) == SumBox(d, ColumnTotals(n, f))
  {
    if n == 0 {
      BoxZero(d, ColumnTotals(0, f));
    } else {
      SumBoxExchange(n - 1, d, f);
      BoxAdd(d, ColumnTotals(n - 1, f), RowOf(f, n - 1), ColumnTotals(n, f));
    }
  }

  /** Two box sums exchange. */
  lemma {:induction false} BoxExchange(d: seq<nat>, e: seq<nat>, f: (Index, Index) -> real)
    ensures SumBox(d, SumSecond(e, f)) == SumBox(e, SumFirst(d, f))
    decreases |d|
  {
    if d == [] {
      BoxExt(e, Second(f, []), SumFirst([], f));
    } else {
      var rest := d[1..];
      var g := (i: int, v: Index) => SumBox(rest, First(FixFirst(f, i), v));
      forall i | 0 <= i < d[0]
        ensures Slices(rest, SumSecond(e, f))(i) == RowTotals(e, g)(i)
      {
        BoxExt(rest, Fix(SumSecond(e, f), i), SumSecond(e, FixFirst(f, i))) by {
          forall u | InBox(rest, u)
            ensures Fix(SumSecond(e, f), i)(u) == SumSecond(e, FixFirst(f, i))(u)
          {
            BoxExt(e, Second(f, [i] + u), Second(FixFirst(f, i), u));
          }
        }
        BoxExchange(rest, e, FixFirst(f, i));
        BoxExt(e, SumFirst(rest, FixFirst(f, i)), RowOf(g, i));
      }
      SumExt(d[0], Slices(rest, SumSecond(e, f)), RowTotals(e, g));
      SumBoxExchange(d[0], e, g);
      forall v | InBox(e, v)
        ensures ColumnTotals(d[0], g)(v) == SumFirst(d, f)(v)
      {
        forall i | 0 <= i < d[0]
          ensures ColumnOf(g, v)(i) == Slices(rest, First(f, v))(i)
        {
          BoxExt(rest, First(FixFirst(f, i), v), Fix(First(f, v), i));
        }
        SumExt(d[0], ColumnOf(g, v), Slices(rest, First(f, v)));
      }
      BoxExt(e, ColumnTotals(d[0], g), SumFirst(d, f));
    }
  }

  // ---- splitting and rotating boxes ----

  /** f on the concatenation of two indices */
  ghost function OnPair(f: Index -> real): (Index, Index) -> real { (u, v) => f(u + v) }

  lemma {:induction false} BoxSplit(d: seq<nat>, e: seq<nat>, f: Index -> real)
    ensures SumBox(d + e, f) == SumBox(d, SumSecond(e, OnPair(f)))
    decreases |d|
  {
    if d == [] {
      assert d + e == e;
      BoxExt(e, f, Second(OnPair(f), [])) by {
        forall v | InBox(e, v) ensures f(v) == Second(OnPair(f), [])(v) { assert [] + v == v; }
      }
    } else {
      var rest := d[1..];
      assert (d + e)[1..] == rest + e;
      forall i | 0 <= i < d[0]
        ensures Slices(rest + e, f)(i) == Slices(rest, SumSecond(e, OnPair(f)))(i)
      {
        BoxSplit(rest, e, Fix(f, i));
        BoxExt(rest, SumSecond(e, OnPair(Fix(f, i))), Fix(SumSecond(e, OnPair(f)), i)) by {
          forall u | InBox(rest, u)
            ensures SumSecond(e, OnPair(Fix(f, i)))(u) == Fix(SumSecond(e, OnPair(f)), i)(u)
          {
            BoxExt(e, Second(OnPair(Fix(f, i)), u), Second(OnPair(f), [i] + u)) by {
              forall v | InBox(e, v)
                ensures Second(OnPair(Fix(f, i)), u)(v) == Second(OnPair(f), [i] + u)(v)
              {
                assert [i] + (u + v) == ([i] + u) + v;
              }
            }
          }
        }
      }
      SumExt(d[0], Slices(rest + e, f), Slices(rest, SumSecond(e, OnPair(f))));
    }
  }

  /** Moving the second group of indices before the first. */
  lemma BoxRotate(d: seq<nat>, e: seq<nat>, f: Index -> real, g: Index -> real)
    requires forall u, v :: InBox(d, u) && InBox(e, v) ==> f(u + v) == g(v + u)
    ensures SumBox(d + e, f) == SumBox(e + d, g)
  {
    BoxSplit(d, e, f);
    BoxSplit(e, d, g);
    BoxExchange(d, e, OnPair(f));
    BoxExt(e, SumFirst(d, OnPair(f)), SumSecond(d, OnPair(g))) by {
      forall v | InBox(e, v)
        ensures SumFirst(d, OnPair(f))(v) == SumSecond(d, OnPair(g))(v)
      {
        BoxExt(d, First(OnPair(f), v), Second(OnPair(g), v));
      }
    }
  }

  /** The same under a common prefix of indices. */
  lemma BoxRotateUnder(pre: seq<nat>, d: seq<nat>, e: seq<nat>, f: Index -> real, g: Index -> real)
    requires forall u, v, w :: InBox(pre, u) && InBox(d, v) && InBox(e, w) ==> f(u + (v + w)) == g(u + (w + v))
    ensures SumBox(pre + (d + e), f) == SumBox(pre + (e + d), g)
  {
    BoxSplit(pre, d + e, f);
    BoxSplit(pre, e + d, g);
    BoxExt(pre, SumSecond(d + e, OnPair(f)), SumSecond(e + d, OnPair(g))) by {
      forall u | InBox(pre, u)
        ensures SumSecond(d + e, OnPair(f))(u) == SumSecond(e + d, OnPair(g))(u)
      {
        BoxRotate(d, e, Second(OnPair(f), u), Second(OnPair(g), u));
      }
    }
  }

  // ---- sums with named indices ----

  ghost function Sum3(a: nat, b: nat, c: nat, f: (int, int, int) -> real): real { SumBox([a, b, c], Lift3(f)) }

  ghost function Sum4(a: nat, b: nat, c: nat, d: nat, f: (int, int, int, int) -> real): real {
    SumBox([a, b, c, d], Lift4(f))
  }

  ghost function Lift2(f: (int, int) -> real): Index -> real { v => if |v| == 2 then f(v[0], v[1]) else 0.0 }

  ghost function Lift3(f: (int, int, int) -> real): Index -> real {
    v => if |v| == 3 then f(v[0], v[1], v[2]) else 0.0
  }

  ghost function Lift4(f: (int, int, int, int) -> real): Index -> real {
    v => if |v| == 4 then f(v[0], v[1], v[2], v[3]) else 0.0
  }

  ghost function Lift5(f: (int, int, int, int, int) -> real): Index -> real {
    v => if |v| == 5 then f(v[0], v[1], v[2], v[3], v[4]) else 0.0
  }

  /** The second axis of two, at a fixed first index. */
  ghost function Columns(f: Index -> real, i: int): int -> real { j => f([i, j]) }

  lemma Sum2Rows(a: nat, b: nat, f: Index -> real, rows: int -> real)
    requires forall i :: 0 <= i < a ==> rows(i) == Sum(b, Columns(f, i))
    ensures SumBox([a, b], f) == Sum(a, rows)
  {
    assert [a, b][1..] == [b] && [b][1..] == [];
    forall i | 0 <= i < a
      ensures Slices([b], f)(i) == rows(i)
    {
      var columns := Slices([], Fix(f, i));
      forall j | 0 <= j < b
        ensures columns(j) == Columns(f, i)(j)
      {
        assert [i] + ([j] + []) == [i, j];
      }
      SumExt(b, columns, Columns(f, i));
      assert Slices([b], f)(i) == SumBox([b], Fix(f, i)) == Sum(b, columns);
    }
    SumExt(a, Slices([b], f), rows);
  }

  ghost function RowSums(b: nat, f: Index -> real): int -> real { i => Sum(b, Columns(f, i)) }

  /** A sum over two axes with at most one term. */
  lemma Sum2Pick(a: nat, b: nat, i0: int, j0: int, f: Index -> real)
    requires forall i, j :: 0 <= i < a && 0 <= j < b && !(i == i0 && j == j0) ==> f([i, j]) == 0.0
    ensures SumBox([a, b], f) == if 0 <= i0 < a && 0 <= j0 < b then f([i0, j0]) else 0.0
  {
    var rows := RowSums(b, f);
    forall i | 0 <= i < a
      ensures rows(i) == if i == i0 && 0 <= j0 < b then f([i0, j0]) else 0.0
    {
      SumPick(b, j0, Columns(f, i));
    }
    SumPick(a, i0, rows);
    Sum2Rows(a, b, f, rows);
  }

  /** Both of two axes read backwards. */
  lemma Sum2Reverse(a: nat, b: nat, f: Index -> real, g: Index -> real)
    requires forall i, j :: 0 <= i < a && 0 <= j < b ==> f([i, j]) == g([a - 1 - i, b - 1 - j])
    ensures SumBox([a, b], f) == SumBox([a, b], g)
  {
    forall i | 0 <= i < a
      ensures RowSums(b, f)(i) == RowSums(b, g)(a - 1 - i)
    {
      SumReverse(b, Columns(f, i), Columns(g, a - 1 - i));
    }
    SumReverse(a, RowSums(b, f), RowSums(b, g));
    Sum2Rows(a, b, f, RowSums(b, f));
    Sum2Rows(a, b, g, RowSums(b, g));
  }

  lemma Sum2ReverseUnder(pre: seq<nat>, a: nat, b: nat, f: Index -> real, g: Index -> real)
    requires forall u, i, j :: InBox(pre, u) && 0 <= i < a && 0 <= j < b ==>
               f(u + [i, j]) == g(u + [a - 1 - i, b - 1 - j])
    ensures SumBox(pre + [a, b], f) == SumBox(pre + [a, b], g)
  {
    BoxSplit(pre, [a, b], f);
    BoxSplit(pre, [a, b], g);
    forall u | InBox(pre, u)
      ensures SumSecond([a, b], OnPair(f))(u) == SumSecond([a, b], OnPair(g))(u)
    {
      Sum2Reverse(a, b, Second(OnPair(f), u), Second(OnPair(g), u));
    }
    BoxExt(pre, SumSecond([a, b], OnPair(f)), SumSecond([a, b], OnPair(g)));
  }
}
