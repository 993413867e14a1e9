/** Axis permutation.  The loop walks the permuted shape with an odometer and reads
    through strides taken from that same shape in reverse. */
module Transpose {
  import opened Layout
  import opened Odometer
  import opened Scans

  function Rev<T>(s: seq<T>): (r: seq<T>)
    ensures |r| == |s| && forall i :: 0 <= i < |s| ==> r[i] == s[|s| - 1 - i]
  {
    seq(|s|, i requires 0 <= i < |s| => s[|s| - 1 - i])
  }

  /** Prefix products taken from the far end: axis `i` gets the product of the axes
      behind it. */
  function RevStrides(shape: Shape): (s: seq<nat>)
    ensures |s| == |shape|
  {
    Rev(Strides(Rev(shape)))
  }

  lemma {:induction false} DotRev(a: seq<nat>, b: seq<nat>)
    requires |a| == |b|
    ensures Dot(Rev(a), b) == Dot(a, Rev(b))
  {
    if a != [] {
      var n := |a| - 1;
      DotRev(a[..n], b[1..]);
      assert Rev(a) == [a[n]] + Rev(a[..n]);
      assert Rev(b) == Rev(b[1..]) + [b[0]];
      DotSnoc(a, Rev(b), n);
      assert a[..n + 1] == a && Rev(b)[..n + 1] == Rev(b) && Rev(b)[..n] == Rev(b[1..]);
      assert Rev(a)[1..] == Rev(a[..n]);
      assert a[n] * b[0] == b[0] * a[n];
    }
  }

  lemma ReadIndex(shape: Shape, idx: seq<nat>)
    requires |idx| == |shape|
    ensures Dot(idx, RevStrides(shape)) == Flat(Rev(shape), Rev(idx))
  {
    DotComm(idx, RevStrides(shape));
    DotRev(Strides(Rev(shape)), idx);
    DotStrides(Rev(shape), Rev(idx));
  }

  lemma {:induction false} DotComm(a: seq<nat>, b: seq<nat>)
    requires |a| == |b|
    ensures Dot(a, b) == Dot(b, a)
  {
    if a != [] {
      DotComm(a[1..], b[1..]);
      assert a[0] * b[0] == b[0] * a[0];
    }
  }

  lemma {:induction false} ProdRev(dims: Shape)
    ensures Prod(Rev(dims)) == Prod(dims)
  {
    if dims != [] {
      ProdRev(dims[1..]);
      assert Rev(dims) == Rev(dims[1..]) + [dims[0]];
      ProdSnoc(Rev(dims[1..]), dims[0]);
    }
  }

  lemma RevInBox(shape: Shape, idx: seq<nat>)
    requires InBox(shape, idx)
    ensures InBox(Rev(shape), Rev(idx))
  {
  }

  lemma RevRev<T>(s: seq<T>)
    ensures Rev(Rev(s)) == s
  {
  }

  /** What position `p` of the output of shape `shape` is read from. */
  function SourceOf(shape: Shape, p: nat): (o: nat)
    requires p < Prod(shape)
    ensures o < Prod(shape)
  {
    ProdPositive(shape);
    FlatUnflat(shape, p);
    RevInBox(shape, Unflat(shape, p));
    FlatInRange(Rev(shape), Rev(Unflat(shape, p)));
    ProdRev(shape);
    Flat(Rev(shape), Rev(Unflat(shape, p)))
  }

  function Transposed(values: seq<int>, shape: Shape): (out: seq<int>)
    requires |values| == Prod(shape)
    ensures |out| == |values|
  {
    seq(|values|, p requires 0 <= p < |values| => values[SourceOf(shape, p)])
  }

  // ------------------------------------------------------------- the loop

  method ReverseStrides(shape: Shape) returns (strides: array<nat>)
    ensures fresh(strides) && strides[..] == RevStrides(shape)
  {
    strides := new nat[|shape|](_ => 0);
    var acc := 1;
    ghost var r := Rev(shape);
    for i := 0 to |shape|
      invariant acc == Prod(r[..i])
      invariant forall k :: 0 <= k < i ==> strides[|shape| - 1 - k] == Prod(r[..k])
    {
      strides[|shape| - 1 - i] := acc;
      ProdSnoc(r[..i], r[i]);
      assert r[..i + 1] == r[..i] + [r[i]];
      acc := acc * shape[|shape| - 1 - i];
    }
  }

  /** The odometer step at the end of the loop body. */
  method Advance(iter: array<nat>, iterMax: Shape)
    requires iter.Length == |iterMax| >= 1 && InBox(iterMax, iter[..])
    modifies iter
    ensures iter[..] == Next(iterMax, old(iter[..]))
  {
    ghost var was := iter[..];
    var idx := 0;
    var updating := true;
    while updating
      invariant 0 <= idx <= |iterMax| && (updating ==> idx < |iterMax|)
      invariant forall k :: 0 <= k < idx ==> was[k] + 1 == iterMax[k] && iter[k] == 0
      invariant updating ==> forall k :: idx <= k < |iterMax| ==> iter[k] == was[k]
      invariant !updating && idx < |iterMax| ==>
        was[idx] + 1 != iterMax[idx] && iter[idx] == was[idx] + 1 && forall k :: idx < k < |iterMax| ==> iter[k] == was[k]
      decreases |iterMax| - idx, updating
    {
      iter[idx] := iter[idx] + 1;
      if iter[idx] == iterMax[idx] {
        iter[idx] := 0;
        idx := idx + 1;
        updating := idx != |iterMax|;
      } else {
        updating := false;
      }
    }
    NextAt(iterMax, was, idx);
  }

  /** The innermost product sum. */
  method SourceIndex(iter: array<nat>, strides: array<nat>, ghost shape: Shape) returns (o: nat)
    requires iter.Length == strides.Length == |shape| && strides[..] == RevStrides(shape)
    ensures o == Flat(Rev(shape), Rev(iter[..]))
  {
    o := TransformReduce(iter[..], strides[..]);
    ReadIndex(shape, iter[..]);
  }

  /** At position `p` the odometer stands at the index that position decodes to. */
  lemma SourceAt(shape: Shape, idx: seq<nat>, p: nat)
    requires InBox(shape, idx) && Flat(shape, idx) == p
    ensures p < Prod(shape) && Flat(Rev(shape), Rev(idx)) == SourceOf(shape, p)
  {
    FlatInRange(shape, idx);
    UnflatFlat(shape, idx);
  }

  method TransposeImpl(src: array<int>, dst: array<int>, iterMax: Shape)
    requires src != dst && src.Length == dst.Length == Prod(iterMax) && |iterMax| >= 1
    modifies dst
    ensures dst[..] == Transposed(src[..], iterMax)
  {
    var iter := new nat[|iterMax|](_ => 0);
    var strides := ReverseStrides(iterMax);
    assert iter[..] == Zeros(|iterMax|);
    FlatZeros(iterMax);
    ProdPositive(iterMax);
    for p := 0 to src.Length
      invariant strides[..] == RevStrides(iterMax)
      invariant forall k :: 0 <= k < p ==> dst[k] == src[SourceOf(iterMax, k)]
      invariant p < src.Length ==> InBox(iterMax, iter[..]) && Flat(iterMax, iter[..]) == p
    {
      SourceAt(iterMax, iter[..], p);
      var o := SourceIndex(iter, strides, iterMax);
      dst[p] := src[o];
      NextCounts(iterMax, iter[..]);
      Advance(iter, iterMax);
    }
  }

  // ---------------------------------------------------------- properties

  /** Index `j` of an array of shape `dims` goes to reversed `j`. */
  lemma ReversalAt(values: seq<int>, dims: Shape, j: seq<nat>)
    requires |values| == Prod(dims) && InBox(dims, j)
    ensures Prod(Rev(dims)) == |values|
    ensures Flat(dims, j) < |values| && Flat(Rev(dims), Rev(j)) < |values|
    ensures Transposed(values, Rev(dims))[Flat(Rev(dims), Rev(j))] == values[Flat(dims, j)]
  {
    ProdRev(dims);
    FlatInRange(dims, j);
    RevInBox(dims, j);
    FlatInRange(Rev(dims), Rev(j));
    UnflatFlat(Rev(dims), Rev(j));
    RevRev(dims);
    RevRev(j);
  }

  /** Reading positions are a bijection: the reversed shape leads back. */
  lemma SourceInverse(shape: Shape, p: nat)
    requires p < Prod(shape)
    ensures Prod(Rev(shape)) == Prod(shape)
    ensures SourceOf(Rev(shape), SourceOf(shape, p)) == p
  {
    ProdRev(shape);
    ProdPositive(shape);
    FlatUnflat(shape, p);
    var idx := Unflat(shape, p);
    RevInBox(shape, idx);
    UnflatFlat(Rev(shape), Rev(idx));
    RevRev(shape);
    RevRev(idx);
  }

  /** Every run permutes the elements, and the run over the reversed shape undoes it;
      in particular the default transpose applied twice is the identity. */
  lemma TransposeUndone(values: seq<int>, shape: Shape)
    requires |values| == Prod(shape)
    ensures Prod(Rev(shape)) == |values|
    ensures Transposed(Transposed(values, shape), Rev(shape)) == values
  {
    ProdRev(shape);
    RevRev(shape);
    forall p | 0 <= p < |values|
      ensures SourceOf(shape, SourceOf(Rev(shape), p)) == p
    {
      SourceInverse(Rev(shape), p);
    }
  }
}
