/** `transpose` with an explicit axis order, and exactly when it is the axis
    permutation its documentation describes. */
module TransposeAxes {
  import opened Layout
  import opened Transpose
  import ChunkMap
  import opened Scans

  /** `axis` lists every one of the `n` axes once. */
  ghost predicate IsAxisOrder(axis: seq<nat>, n: nat) {
    && |axis| == n
    && (forall i :: 0 <= i < n ==> axis[i] < n)
    && (forall i, k :: 0 <= i < k < n ==> axis[i] != axis[k])
    && (forall a: nat :: a < n ==> a in axis)
  }

  function Pick(s: seq<nat>, axis: seq<nat>): (r: seq<nat>)
    requires forall i :: 0 <= i < |axis| ==> axis[i] < |s|
    ensures |r| == |axis|
  {
    seq(|axis|, i requires 0 <= i < |axis| => s[axis[i]])
  }

  // ------------------------------------- products and sums over a set of axes

  function ProdOver(dims: Shape, axes: set<nat>, n: nat): nat
    requires n <= |dims|
  {
    if n == 0 then 1 else ProdOver(dims, axes, n - 1) * (if n - 1 in axes then dims[n - 1] else 1)
  }

  function SumOver(terms: seq<nat>, axes: set<nat>, n: nat): nat
    requires n <= |terms|
  {
    if n == 0 then 0 else SumOver(terms, axes, n - 1) + (if n - 1 in axes then terms[n - 1] else 0)
  }

  lemma {:induction false} ProdOverAdd(dims: Shape, axes: set<nat>, a: nat, n: nat)
    requires n <= |dims| && a < |dims| && a !in axes
    ensures ProdOver(dims, axes + {a}, n) == ProdOver(dims, axes, n) * (if a < n then dims[a] else 1)
  {
    if n > 0 {
      ProdOverAdd(dims, axes, a, n - 1);
      if a < n - 1 {
        SwapFactors(ProdOver(dims, axes, n - 1), dims[a], if n - 1 in axes then dims[n - 1] else 1);
      }
    }
  }

  lemma SwapFactors(p: nat, a: nat, b: nat)
    ensures p * a * b == p * b * a
  {
  }

  lemma {:induction false} SumOverAdd(terms: seq<nat>, axes: set<nat>, a: nat, n: nat)
    requires n <= |terms| && a < |terms| && a !in axes
    ensures SumOver(terms, axes + {a}, n) == SumOver(terms, axes, n) + (if a < n then terms[a] else 0)
  {
    if n > 0 {
      SumOverAdd(terms, axes, a, n - 1);
    }
  }

  function AxisSet(s: seq<nat>): set<nat> {
    set a | a in s
  }

  ghost predicate Distinct(s: seq<nat>) {
    forall i, k :: 0 <= i < k < |s| ==> s[i] != s[k]
  }

  lemma {:induction false} ProdPick(dims: Shape, s: seq<nat>)
    requires Distinct(s) && forall i :: 0 <= i < |s| ==> s[i] < |dims|
    ensures Prod(Pick(dims, s)) == ProdOver(dims, AxisSet(s), |dims|)
  {
    if s == [] {
      ProdOverNone(dims, |dims|);
      assert AxisSet(s) == {};
    } else {
      ProdPick(dims, s[1..]);
      assert AxisSet(s) == AxisSet(s[1..]) + {s[0]};
      ProdOverAdd(dims, AxisSet(s[1..]), s[0], |dims|);
      assert Pick(dims, s)[1..] == Pick(dims, s[1..]);
      MulComm(dims[s[0]], Prod(Pick(dims, s[1..])));
    }
  }

  lemma {:induction false} ProdOverNone(dims: Shape, n: nat)
    requires n <= |dims|
    ensures ProdOver(dims, {}, n) == 1
  {
    if n > 0 {
      ProdOverNone(dims, n - 1);
    }
  }

  lemma {:induction false} ProdOverPrefix(dims: Shape, k: nat, n: nat)
    requires n <= |dims| && k <= |dims|
    ensures ProdOver(dims, ChunkMap.Range(0, k), n) == Prod(dims[..if k < n then k else n])
  {
    if n > 0 {
      ProdOverPrefix(dims, k, n - 1);
      if n - 1 < k {
        assert dims[..n] == dims[..n - 1] + [dims[n - 1]];
        ProdSnoc(dims[..n - 1], dims[n - 1]);
      }
    }
  }

  /** Axes of extent 1 do not count. */
  lemma {:induction false} ProdOverSame(dims: Shape, s: set<nat>, t: set<nat>, n: nat)
    requires n <= |dims|
    requires forall a: nat :: a < n && dims[a] != 1 ==> (a in s <==> a in t)
    ensures ProdOver(dims, s, n) == ProdOver(dims, t, n)
  {
    if n > 0 {
      ProdOverSame(dims, s, t, n - 1);
    }
  }

  lemma {:induction false} DotPick(a: seq<nat>, b: seq<nat>, s: seq<nat>)
    requires |a| == |b| && Distinct(s) && forall i :: 0 <= i < |s| ==> s[i] < |a|
    ensures Dot(Pick(a, s), Pick(b, s)) == SumOver(Times(a, b), AxisSet(s), |a|)
  {
    var terms := Times(a, b);
    if s == [] {
      SumOverNone(terms, |a|);
      assert AxisSet(s) == {};
    } else {
      DotPick(a, b, s[1..]);
      assert AxisSet(s) == AxisSet(s[1..]) + {s[0]};
      SumOverAdd(terms, AxisSet(s[1..]), s[0], |a|);
      assert Pick(a, s)[1..] == Pick(a, s[1..]) && Pick(b, s)[1..] == Pick(b, s[1..]);
    }
  }

  lemma {:induction false} SumOverNone(terms: seq<nat>, n: nat)
    requires n <= |terms|
    ensures SumOver(terms, {}, n) == 0
  {
    if n > 0 {
      SumOverNone(terms, n - 1);
    }
  }

  lemma {:induction false} SumOverAll(a: seq<nat>, b: seq<nat>, all: set<nat>, n: nat)
    requires |a| == |b| && n <= |a| && forall i: nat :: i < n ==> i in all
    ensures SumOver(Times(a, b), all, n) == Dot(a[..n], b[..n])
  {
    if n > 0 {
      SumOverAll(a, b, all, n - 1);
      DotSnoc(a, b, n - 1);
    }
  }

  // ------------------------------------------------ the documented permutation

  /** The documented result: stepping along output axis `i` steps along input axis
      `axis[i]`. */
  function AxisSource(dims: Shape, axis: seq<nat>, it: seq<nat>): nat
    requires |axis| == |dims| == |it| && forall i :: 0 <= i < |axis| ==> axis[i] < |dims|
  {
    Dot(Pick(Strides(dims), axis), it)
  }

  /** It reads, for every input index `j`, element `j` at the permuted index. */
  lemma AxisSourceAt(dims: Shape, axis: seq<nat>, j: seq<nat>)
    requires IsAxisOrder(axis, |dims|) && |j| == |dims|
    ensures AxisSource(dims, axis, Pick(j, axis)) == Flat(dims, j)
  {
    var s := Strides(dims);
    DotPick(s, j, axis);
    SumOverAll(s, j, AxisSet(axis), |dims|);
    assert s[..|dims|] == s && j[..|dims|] == j;
    DotStrides(dims, j);
  }

  /** Among the axes longer than 1, the order is strictly decreasing: apart from
      axes of extent 1, the order is the full reversal. */
  ghost predicate ReversesLongAxes(dims: Shape, axis: seq<nat>)
    requires forall i :: 0 <= i < |axis| ==> axis[i] < |dims|
  {
    forall i, k :: 0 <= i < k < |axis| && dims[axis[i]] != 1 && dims[axis[k]] != 1 ==> axis[i] > axis[k]
  }

  /** The stride the loop uses for output axis `i`: the extents behind it. */
  lemma LoopStride(shape: Shape, i: nat)
    requires i < |shape|
    ensures RevStrides(shape)[i] == Prod(shape[i + 1..])
  {
    assert Rev(shape)[..|shape| - 1 - i] == Rev(shape[i + 1..]);
    ProdRev(shape[i + 1..]);
  }

  lemma StridesAgree(dims: Shape, axis: seq<nat>, i: nat)
    requires IsAxisOrder(axis, |dims|) && ReversesLongAxes(dims, axis)
    requires i < |dims| && dims[axis[i]] != 1
    ensures RevStrides(Pick(dims, axis))[i] == Strides(dims)[axis[i]]
  {
    var d, rest := Pick(dims, axis), axis[i + 1..];
    LoopStride(d, i);
    assert d[i + 1..] == Pick(dims, rest);
    ProdPick(dims, rest);
    ProdOverPrefix(dims, axis[i], |dims|);
    forall a: nat | a < |dims| && dims[a] != 1
      ensures a in AxisSet(rest) <==> a in ChunkMap.Range(0, axis[i])
    {
      assert a in axis;
      var m :| 0 <= m < |axis| && axis[m] == a;
      if m > i {
        assert rest[m - i - 1] == a;
      }
    }
    ProdOverSame(dims, AxisSet(rest), ChunkMap.Range(0, axis[i]), |dims|);
  }

  lemma {:induction false} DotAgree(a: seq<nat>, b: seq<nat>, it: seq<nat>)
    requires |a| == |b| == |it| && forall i :: 0 <= i < |it| ==> it[i] == 0 || a[i] == b[i]
    ensures Dot(a, it) == Dot(b, it)
  {
    if a != [] {
      DotAgree(a[1..], b[1..], it[1..]);
    }
  }

  lemma {:induction false} DotUnit(a: seq<nat>, i: nat)
    requires i < |a|
    ensures Dot(a, Unit(|a|, i)) == a[i]
  {
    if i == 0 {
      assert Unit(|a|, 0)[1..] == Zeros(|a[1..]|);
      DotZeros(a[1..]);
    } else {
      assert Unit(|a|, i)[1..] == Unit(|a[1..]|, i - 1);
      DotUnit(a[1..], i - 1);
    }
  }

  /** Index by index, the loop reads what the documented permutation reads. */
  ghost predicate LoopIsAxisPermutation(dims: Shape, axis: seq<nat>)
    requires IsAxisOrder(axis, |dims|)
  {
    var d := Pick(dims, axis);
    forall it :: InBox(d, it) ==> Flat(Rev(d), Rev(it)) == AxisSource(dims, axis, it)
  }

  lemma StrideGrows(s: Shape, i: nat, k: nat)
    requires Positive(s) && i < k <= |s|
    ensures Prod(s[..i]) * s[i] <= Prod(s[..k])
  {
    assert s[..k] == s[..i] + ([s[i]] + s[i + 1..k]);
    ProdConcat(s[..i], [s[i]] + s[i + 1..k]);
    assert ([s[i]] + s[i + 1..k])[1..] == s[i + 1..k];
    assert Positive(s[i + 1..k]);
    ProdPositive(s[i + 1..k]);
    MulMono(s[i], 1, Prod(s[i + 1..k]));
    MulMono(Prod(s[..i]), s[i], s[i] * Prod(s[i + 1..k]));
  }

  lemma Grows(p: nat, d: nat, q: nat)
    requires p >= 1 && d >= 2 && p * d <= q
    ensures p < q
  {
    MulMono(p, 2, d);
  }

  lemma PrefixGrows(s: Shape, i: nat, k: nat)
    requires Positive(s) && i < k <= |s| && s[i] != 1
    ensures Prod(s[..i]) < Prod(s[..k])
  {
    StrideGrows(s, i, k);
    assert Positive(s[..i]);
    ProdPositive(s[..i]);
    Grows(Prod(s[..i]), s[i], Prod(s[..k]));
  }

  lemma LoopStridesShrink(d: Shape, i: nat, k: nat)
    requires Positive(d) && i < k < |d| && d[k] != 1
    ensures RevStrides(d)[k] < RevStrides(d)[i]
  {
    var r, n := Rev(d), |d|;
    PrefixGrows(r, n - 1 - k, n - 1 - i);
    assert Strides(r)[n - 1 - k] == Prod(r[..n - 1 - k]) && Strides(r)[n - 1 - i] == Prod(r[..n - 1 - i]);
  }

  /** Equal strides force the order: the loop's strides shrink along the output,
      the array's grow along the input. */
  lemma AgreementForcesOrder(dims: Shape, axis: seq<nat>, i: nat, k: nat)
    requires Positive(dims) && IsAxisOrder(axis, |dims|) && i < k < |dims|
    requires dims[axis[i]] != 1 && dims[axis[k]] != 1
    requires RevStrides(Pick(dims, axis))[i] == Strides(dims)[axis[i]]
    requires RevStrides(Pick(dims, axis))[k] == Strides(dims)[axis[k]]
    ensures axis[i] > axis[k]
  {
    LoopStridesShrink(Pick(dims, axis), i, k);
    if axis[i] < axis[k] {
      PrefixGrows(dims, axis[i], axis[k]);
    }
  }

  /** An explicit order is honoured exactly when, axes of extent 1 aside, it is the
      full reversal. */
  lemma AxisOrderExact(dims: Shape, axis: seq<nat>)
    requires Positive(dims) && IsAxisOrder(axis, |dims|)
    ensures LoopIsAxisPermutation(dims, axis) <==> ReversesLongAxes(dims, axis)
  {
    var d := Pick(dims, axis);
    var loop, axisStrides := RevStrides(d), Pick(Strides(dims), axis);
    if ReversesLongAxes(dims, axis) {
      forall it | InBox(d, it)
        ensures Flat(Rev(d), Rev(it)) == AxisSource(dims, axis, it)
      {
        ReadIndex(d, it);
        DotComm(it, loop);
        forall i | 0 <= i < |dims| && it[i] != 0
          ensures loop[i] == axisStrides[i]
        {
          StridesAgree(dims, axis, i);
        }
        DotAgree(loop, axisStrides, it);
      }
    }
    if LoopIsAxisPermutation(dims, axis) {
      forall i | 0 <= i < |dims| && d[i] != 1
        ensures loop[i] == Strides(dims)[axis[i]]
      {
        var it := Unit(|dims|, i);
        assert InBox(d, it);
        ReadIndex(d, it);
        DotComm(it, loop);
        DotUnit(loop, i);
        DotUnit(axisStrides, i);
      }
      forall i, k | 0 <= i < k < |axis| && dims[axis[i]] != 1 && dims[axis[k]] != 1
        ensures axis[i] > axis[k]
      {
        AgreementForcesOrder(dims, axis, i, k);
      }
    }
  }

  /** An order that is not the reversal, on which the loop misplaces an element. */
  lemma IdentityOrderMisplaces()
    ensures IsAxisOrder([0, 1], 2) && !LoopIsAxisPermutation([2, 3], [0, 1])
  {
    assert [0, 1][0] == 0 && [0, 1][1] == 1;
    AxisOrderExact([2, 3], [0, 1]);
  }

  lemma OrderKeepsSize(dims: Shape, axis: seq<nat>)
    requires IsAxisOrder(axis, |dims|)
    ensures Prod(Pick(dims, axis)) == Prod(dims)
  {
    ProdPick(dims, axis);
    ProdOverPrefix(dims, |dims|, |dims|);
    assert dims[..|dims|] == dims;
    assert AxisSet(axis) == ChunkMap.Range(0, |dims|);
  }

  method TransposeData(data: array<int>, dims: Shape, axis: seq<nat>) returns (outDims: Shape, out: array<int>)
    requires |dims| >= 1 && data.Length == Prod(dims)
    requires axis != [] ==> IsAxisOrder(axis, |dims|)
    ensures |outDims| == |dims|
    ensures forall i :: 0 <= i < |dims| ==> outDims[i] == dims[if axis == [] then |dims| - 1 - i else axis[i]]
    ensures fresh(out) && Prod(outDims) == data.Length
    ensures out[..] == Transposed(data[..], outDims)
  {
    if axis == [] {
      outDims := Rev(dims);
      ProdRev(dims);
    } else {
      outDims := Pick(dims, axis);
      OrderKeepsSize(dims, axis);
    }
    out := new int[data.Length];
    TransposeImpl(data, out, outDims);
  }
}
