/** Strided views of a flat array, and views of views.  `CurrentToOffset` turns the
    position of an iterator into an offset by splitting it into digits from the
    slowest axis down. */
module MultiDimRange {
  import opened Layout
  import opened Scans

  /** Elementwise sum. */
  function Plus(a: seq<nat>, b: seq<nat>): (c: seq<nat>)
    requires |a| == |b|
    ensures |c| == |a|
  {
    seq(|a|, i requires 0 <= i < |a| => a[i] + b[i])
  }

  function Ones(n: nat): (z: seq<nat>)
    ensures |z| == n
  {
    seq(n, i => 1)
  }

  lemma TermPlus(a: nat, x: nat, y: nat, rest: int, restX: int, restY: int)
    requires rest == restX + restY
    ensures a * (x + y) + rest == (a * x + restX) + (a * y + restY)
  {
  }

  lemma {:induction false} DotPlus(a: seq<nat>, x: seq<nat>, y: seq<nat>)
    requires |a| == |x| == |y|
    ensures Dot(a, Plus(x, y)) == Dot(a, x) + Dot(a, y)
  {
    if a != [] {
      assert Plus(x, y)[1..] == Plus(x[1..], y[1..]);
      DotPlus(a[1..], x[1..], y[1..]);
      TermPlus(a[0], x[0], y[0], Dot(a[1..], Plus(x[1..], y[1..])), Dot(a[1..], x[1..]), Dot(a[1..], y[1..]));
    }
  }

  lemma TermMove(a: nat, t: nat, x: nat)
    ensures a * t * x == a * (x * t)
  {
  }

  lemma {:induction false} DotTimes(a: seq<nat>, t: seq<nat>, x: seq<nat>)
    requires |a| == |t| == |x|
    ensures Dot(Times(a, t), x) == Dot(a, Times(x, t))
  {
    if a != [] {
      assert Times(a, t)[1..] == Times(a[1..], t[1..]);
      assert Times(x, t)[1..] == Times(x[1..], t[1..]);
      DotTimes(a[1..], t[1..], x[1..]);
      TermMove(a[0], t[0], x[0]);
    }
  }

  class MultiDimRange {
    const origin: array<int>
    const globalDims: Shape
    const localDims: Shape
    const localStride: seq<nat>
    const globalStride: seq<nat>
    const localMaxDim: nat
    const globalOffset: nat

    ghost predicate Valid() {
      && |globalDims| == |localDims| == |localStride| == |globalStride|
      && localStride == Strides(localDims) && localMaxDim == Prod(localDims)
    }

    /** A view of `count` elements per axis, `stride` apart, beginning at `start`. */
    constructor (origin: array<int>, globalDims: Shape, count: Shape, stride: seq<nat>, start: seq<nat>)
      requires |globalDims| == |count| == |stride| == |start|
      ensures Valid() && this.origin == origin && this.globalDims == globalDims && localDims == count
      ensures globalStride == Times(Strides(globalDims), stride)
      ensures globalOffset == Dot(Strides(globalDims), start)
    {
      var strides := ExclusiveScan(globalDims);
      var offset := TransformReduce(strides, start);
      var scaled := Multiply(strides, stride);
      var local := ExclusiveScan(count);
      var size := Accumulate(count);
      this.origin, this.globalDims, this.localDims := origin, globalDims, count;
      this.localStride, this.globalStride := local, scaled;
      this.localMaxDim, this.globalOffset := size, offset;
    }

    /** A view of `count` elements per axis, `stride` apart, beginning where the
        iterator at `current` of another view stands. */
    constructor At(range: MultiDimRange, current: nat, count: Shape, stride: seq<nat>)
      requires range.Valid() && current < range.localMaxDim
      requires |range.globalDims| == |count| == |stride|
      ensures Valid() && origin == range.origin && globalDims == range.globalDims && localDims == count
      ensures globalStride == Times(Strides(globalDims), stride)
      ensures globalOffset == range.OffsetOf(current)
    {
      var strides := ExclusiveScan(range.globalDims);
      var scaled := Multiply(strides, stride);
      var local := ExclusiveScan(count);
      var size := Accumulate(count);
      var offset := range.CurrentToOffset(current);
      this.origin, this.globalDims, this.localDims := range.origin, range.globalDims, count;
      this.localStride, this.globalStride := local, scaled;
      this.localMaxDim, this.globalOffset := size, offset;
    }

    /** Where the element at `current` lies in the underlying array. */
    ghost function OffsetOf(current: nat): nat
      requires Valid() && current < localMaxDim
    {
      ProdPositive(localDims);
      globalOffset + Dot(globalStride, Unflat(localDims, current))
    }

    method CurrentToOffset(current: nat) returns (offset: nat)
      requires Valid() && current < localMaxDim
      ensures offset == OffsetOf(current)
    {
      var position := Digits(localDims, localStride, current);
      var dot := TransformReduce(globalStride, position);
      return globalOffset + dot;
    }
  }

  // ---------------------------------------------------------- the digits

  lemma DigitStep(rem: nat, stride: nat, d: nat)
    requires rem < stride * d && stride >= 1
    ensures rem / stride < d && rem - rem / stride * stride == rem % stride < stride
  {
    DivBelow(rem, stride, d);
    assert rem == stride * (rem / stride) + rem % stride;
  }

  /** The digits of the axes from `i` up have been split off `current`, leaving `rem`. */
  ghost predicate SplitFrom(dims: Shape, current: nat, i: nat, rem: nat, position: seq<nat>) {
    && i <= |dims| && |position| == |dims| - i
    && rem < Prod(dims[..i])
    && InBox(dims[i..], position)
    && current == rem + Dot(Strides(dims)[i..], position)
  }

  lemma SplitOne(dims: Shape, current: nat, i: nat, rem: nat, position: seq<nat>)
    requires i < |dims| && Positive(dims) && SplitFrom(dims, current, i + 1, rem, position)
    ensures var stride := Strides(dims)[i];
            && stride >= 1 && rem / stride * stride <= rem
            && SplitFrom(dims, current, i, rem - rem / stride * stride, [rem / stride] + position)
  {
    assert dims[..i + 1] == dims[..i] + [dims[i]];
    ProdSnoc(dims[..i], dims[i]);
    assert Positive(dims[..i]);
    ProdPositive(dims[..i]);
    var stride := Strides(dims)[i];
    DigitStep(rem, stride, dims[i]);
    var digit: nat := rem / stride;
    var rest := Strides(dims)[i..];
    assert rest[1..] == Strides(dims)[i + 1..] && ([digit] + position)[1..] == position;
    assert Dot(rest, [digit] + position) == stride * digit + Dot(Strides(dims)[i + 1..], position);
    assert stride * digit == digit * stride;
  }

  lemma SplitAll(dims: Shape, current: nat, rem: nat, position: seq<nat>)
    requires SplitFrom(dims, current, 0, rem, position)
    ensures InBox(dims, position) && Positive(dims) && position == Unflat(dims, current)
  {
    assert dims[..0] == [] && dims[0..] == dims && Strides(dims)[0..] == Strides(dims);
    DotStrides(dims, position);
    UnflatFlat(dims, position);
  }

  /** Splitting off digits from the slowest axis down gives the mixed-radix digits. */
  method Digits(dims: Shape, strides: seq<nat>, current: nat) returns (position: seq<nat>)
    requires strides == Strides(dims) && current < Prod(dims)
    ensures Positive(dims) && position == Unflat(dims, current)
    ensures InBox(dims, position)
  {
    ProdPositive(dims);
    position := [];
    var rem: nat := current;
    var i := |dims|;
    assert dims[..i] == dims;
    while i > 0
      invariant 0 <= i <= |dims| && SplitFrom(dims, current, i, rem, position)
    {
      i := i - 1;
      SplitOne(dims, current, i, rem, position);
      var digit: nat := rem / strides[i];
      position := [digit] + position;
      rem := rem - digit * strides[i];
    }
    SplitAll(dims, current, rem, position);
  }
}
