/** Strided block selection: `count` blocks of `block` elements per axis, `stride`
    apart, beginning at `start`, packed side by side into an array of shape
    `count * block`. */
module Select {
  import opened Layout
  import opened ChunkMap
  import Contiguity
  import opened MultiDimRange
  import opened Scans

  datatype Args = Args(start: seq<nat>, stride: seq<nat>, count: Shape, block: Shape)

  // ------------------------------------------------------------ validation

  ghost predicate Accepted(a: Args, dims: Shape) {
    && |dims| != 0 && |a.start| == |a.stride| == |a.count| == |a.block| == |dims|
    && Positive(a.count) && Positive(a.block) && Positive(a.stride)
    && forall i :: 0 <= i < |dims| ==>
         a.start[i] + a.block[i] + (a.count[i] - 1) * a.stride[i] - 1 <= dims[i]
  }

  /** The last element selected along each axis lies inside the array. */
  ghost predicate Tight(a: Args, dims: Shape)
    requires |a.start| == |a.stride| == |a.count| == |a.block| == |dims| && Positive(a.count)
  {
    forall i :: 0 <= i < |dims| ==>
      a.start[i] + (a.count[i] - 1) * a.stride[i] + a.block[i] <= dims[i]
  }

  method AllPositive(s: seq<nat>) returns (ok: bool)
    ensures ok == Positive(s)
  {
    for i := 0 to |s|
      invariant forall k :: 0 <= k < i ==> s[k] >= 1
    {
      if s[i] < 1 {
        return false;
      }
    }
    return true;
  }

  method ValidateSelectArgs(a: Args, dims: Shape) returns (ok: bool)
    ensures ok == Accepted(a, dims)
  {
    if |dims| == 0 || |a.start| != |dims| || |a.stride| != |dims| || |a.count| != |dims| || |a.block| != |dims| {
      return false;
    }
    var counts := AllPositive(a.count);
    var blocks := AllPositive(a.block);
    var strides := AllPositive(a.stride);
    if !(counts && blocks && strides) {
      return false;
    }
    for i := 0 to |dims|
      invariant forall k :: 0 <= k < i ==>
        a.start[k] + a.block[k] + (a.count[k] - 1) * a.stride[k] - 1 <= dims[k]
    {
      if a.start[i] + a.block[i] + (a.count[i] - 1) * a.stride[i] - 1 > dims[i] {
        return false;
      }
    }
    return true;
  }

  /** Coordinates read for element `e` of block `b`. */
  function Source(a: Args, b: seq<nat>, e: seq<nat>): (x: seq<nat>)
    requires |a.start| == |a.stride| == |b| == |e|
    ensures |x| == |a.start|
  {
    Plus(Plus(a.start, Times(b, a.stride)), e)
  }

  lemma AxisInside(start: nat, stride: nat, count: nat, block: nat, d: nat, b: nat, e: nat)
    requires b < count && e < block && start + (count - 1) * stride + block <= d
    ensures start + b * stride + e < d
  {
    MulMono(stride, b, count - 1);
    MulComm(stride, b);
    MulComm(stride, count - 1);
  }

  /** Every element read lies inside the array exactly under the tight bound. */
  lemma ReadsInsideExact(a: Args, dims: Shape)
    requires |dims| >= 1 && |a.start| == |a.stride| == |a.count| == |a.block| == |dims|
    requires Positive(a.count) && Positive(a.block)
    ensures Tight(a, dims) <==>
            forall b, e :: InBox(a.count, b) && InBox(a.block, e) ==> InBox(dims, Source(a, b, e))
  {
    if Tight(a, dims) {
      forall b, e | InBox(a.count, b) && InBox(a.block, e)
        ensures InBox(dims, Source(a, b, e))
      {
        forall i | 0 <= i < |dims|
          ensures Source(a, b, e)[i] < dims[i]
        {
          AxisInside(a.start[i], a.stride[i], a.count[i], a.block[i], dims[i], b[i], e[i]);
        }
      }
    } else {
      var b: seq<nat> := seq(|dims|, i requires 0 <= i < |dims| => a.count[i] - 1);
      var e: seq<nat> := seq(|dims|, i requires 0 <= i < |dims| => a.block[i] - 1);
      var i :| 0 <= i < |dims| && a.start[i] + (a.count[i] - 1) * a.stride[i] + a.block[i] > dims[i];
      assert InBox(a.count, b) && InBox(a.block, e);
      assert Source(a, b, e)[i] >= dims[i];
    }
  }

  /** Accepted is what stays inside an array one longer along each axis, provided that
      there are axes, one argument for each, and no zero count, block or stride. */
  lemma AcceptedExact(a: Args, dims: Shape)
    ensures Accepted(a, dims) <==>
            && |dims| >= 1 && |a.start| == |a.stride| == |a.count| == |a.block| == |dims|
            && Positive(a.count) && Positive(a.block) && Positive(a.stride)
            && forall b, e :: InBox(a.count, b) && InBox(a.block, e) ==>
                 InBox(Plus(dims, Ones(|dims|)), Source(a, b, e))
  {
    if |dims| >= 1 && |a.start| == |a.stride| == |a.count| == |a.block| == |dims|
       && Positive(a.count) && Positive(a.block) {
      ReadsInsideExact(a, Plus(dims, Ones(|dims|)));
    }
  }

  /** The validation is one too generous: of an accepted request all elements read lie
      in the array, or else the last one of some axis lies exactly one behind it. */
  lemma AcceptedOvershoots(a: Args, dims: Shape)
    requires Accepted(a, dims)
    ensures (forall b, e :: InBox(a.count, b) && InBox(a.block, e) ==> InBox(dims, Source(a, b, e)))
            <==> !exists i :: 0 <= i < |dims| &&
                   a.start[i] + (a.count[i] - 1) * a.stride[i] + a.block[i] == dims[i] + 1
  {
    ReadsInsideExact(a, dims);
  }

  /** One block of three elements of a row of two: accepted, and its last element lies
      behind the row. */
  lemma OvershootAccepted()
    ensures var a, dims := Args([0], [1], [1], [3]), [2];
            && Accepted(a, dims) && !Tight(a, dims)
            && InBox(a.count, [0]) && InBox(a.block, [2]) && !InBox(dims, Source(a, [0], [2]))
  {
    var a, dims := Args([0], [1], [1], [3]), [2];
    assert a.start[0] + (a.count[0] - 1) * a.stride[0] + a.block[0] == 3 > dims[0];
    assert Source(a, [0], [2])[0] == 2;
  }

  // ------------------------------------------------------------ the result

  /** Shape of the selection. */
  function OutDims(a: Args): (d: Shape)
    requires |a.block| == |a.count|
    ensures |d| == |a.block|
  {
    Times(a.block, a.count)
  }

  /** The selection, defined by output position: the coordinates of the output
      element say which block it belongs to and where in that block it lies. */
  function Selected(src: seq<int>, dims: Shape, a: Args): (out: seq<int>)
    requires Accepted(a, dims) && Tight(a, dims) && |src| == Prod(dims)
    ensures |out| == Prod(OutDims(a))
  {
    var d := OutDims(a);
    seq(Prod(d), o requires 0 <= o < Prod(d) => OutputInside(dims, a, o);
      src[Flat(dims, Source(a, Quot(Unflat(d, o), a.block), Rem(Unflat(d, o), a.block)))])
  }

  lemma GridOfBlocks(a: Args)
    requires |a.block| == |a.count| && Positive(a.block)
    ensures MaxIdx(OutDims(a), a.block) == a.count
    ensures Total(OutDims(a), a.block) == Prod(OutDims(a))
    ensures Contiguity.ValidDims(OutDims(a), a.block)
  {
    forall i | 0 <= i < |a.block|
      ensures CeilDiv(OutDims(a)[i], a.block[i]) == a.count[i] && OutDims(a)[i] % a.block[i] == 0
    {
      DivModOfSum(0, a.block[i], a.count[i]);
    }
    Contiguity.DivisibleTotal(OutDims(a), a.block);
  }

  lemma OutputInside(dims: Shape, a: Args, o: nat)
    requires Accepted(a, dims) && Tight(a, dims) && o < Prod(OutDims(a))
    ensures Positive(OutDims(a))
    ensures var x := Unflat(OutDims(a), o);
            && InBox(dims, Source(a, Quot(x, a.block), Rem(x, a.block)))
            && Flat(dims, Source(a, Quot(x, a.block), Rem(x, a.block))) < Prod(dims)
  {
    var d := OutDims(a);
    ProdPositive(d);
    FlatUnflat(d, o);
    var x := Unflat(d, o);
    GridOfBlocks(a);
    QuotRemInverse(d, a.block, x);
    ReadsInsideExact(a, dims);
    FlatInRange(dims, Source(a, Quot(x, a.block), Rem(x, a.block)));
  }

  /** Block by block: the output at `b * block + e` is the source at
      `start + b * stride + e`. */
  lemma SelectedAt(src: seq<int>, dims: Shape, a: Args, b: seq<nat>, e: seq<nat>)
    requires Accepted(a, dims) && Tight(a, dims) && |src| == Prod(dims)
    requires InBox(a.count, b) && InBox(a.block, e)
    ensures InBox(OutDims(a), At(a.block, b, e)) && InBox(dims, Source(a, b, e))
    ensures Flat(OutDims(a), At(a.block, b, e)) < Prod(OutDims(a)) && Flat(dims, Source(a, b, e)) < |src|
    ensures Selected(src, dims, a)[Flat(OutDims(a), At(a.block, b, e))] == src[Flat(dims, Source(a, b, e))]
  {
    var d, x := OutDims(a), At(a.block, b, e);
    GridOfBlocks(a);
    Contiguity.DivisibleInBox(d, a.block, b, e);
    FlatInRange(d, x);
    UnflatFlat(d, x);
    QuotRemOfAt(a.block, b, e);
    ReadsInsideExact(a, dims);
    FlatInRange(dims, Source(a, b, e));
  }

  /** Every output position belongs to one element of one block, and to no other: the
      copy writes each position exactly once. */
  lemma EachOutputOnce(a: Args, o: nat, b: seq<nat>, e: seq<nat>)
    requires |a.block| == |a.count| && Positive(a.block) && o < Prod(OutDims(a))
    requires InBox(a.count, b) && InBox(a.block, e)
    ensures Positive(OutDims(a))
    ensures var x := Unflat(OutDims(a), o);
            && InBox(a.count, Quot(x, a.block)) && InBox(a.block, Rem(x, a.block))
            && (Flat(OutDims(a), At(a.block, b, e)) == o <==> b == Quot(x, a.block) && e == Rem(x, a.block))
  {
    var d := OutDims(a);
    ProdPositive(d);
    FlatUnflat(d, o);
    GridOfBlocks(a);
    QuotRemInverse(d, a.block, Unflat(d, o));
    Contiguity.DivisibleInBox(d, a.block, b, e);
    UnflatFlat(d, At(a.block, b, e));
    QuotRemOfAt(a.block, b, e);
  }

  // ------------------------------------------------------------- the copy

  /** A view at an iterator of a strided view: the offsets add up to the flat
      position of the coordinates. */
  lemma NestedOffset(dims: Shape, start: seq<nat>, stride: seq<nat>, b: seq<nat>, e: seq<nat>)
    requires |dims| == |start| == |stride| == |b| == |e|
    ensures var st := Strides(dims);
            Dot(st, start) + Dot(Times(st, stride), b) + Dot(Times(st, Ones(|dims|)), e)
            == Flat(dims, Plus(Plus(start, Times(b, stride)), e))
  {
    var st := Strides(dims);
    DotTimes(st, stride, b);
    DotTimes(st, Ones(|dims|), e);
    assert Times(e, Ones(|dims|)) == e;
    DotPlus(st, start, Times(b, stride));
    DotPlus(st, Plus(start, Times(b, stride)), e);
    DotStrides(dims, Plus(Plus(start, Times(b, stride)), e));
  }

  lemma DestOffset(a: Args, b: seq<nat>, e: seq<nat>)
    requires |a.block| == |a.count| == |b| == |e|
    ensures Plus(Plus(Zeros(|b|), Times(b, a.block)), e) == At(a.block, b, e)
  {
  }

  /** The source element that belongs in each cell. */
  ghost function Gathered(src: seq<int>, dims: Shape, a: Args): (mem: seq<int>)
    requires Accepted(a, dims) && Tight(a, dims) && |src| == Prod(dims)
    ensures |mem| == Total(OutDims(a), a.block)
  {
    var d := OutDims(a);
    GridOfBlocks(a);
    seq(Total(d, a.block), p requires 0 <= p < Total(d, a.block) =>
      ReadsInsideExact(a, dims);
      FlatInRange(dims, Source(a, BlockOf(d, a.block, p), ElemOf(d, a.block, p)));
      src[Flat(dims, Source(a, BlockOf(d, a.block, p), ElemOf(d, a.block, p)))])
  }

  /** Gathering every cell gives the selection. */
  lemma GatheredIsSelected(src: seq<int>, dims: Shape, a: Args, dest: seq<int>)
    requires Accepted(a, dims) && Tight(a, dims) && |src| == Prod(dims) && |dest| == Prod(OutDims(a))
    ensures var mem := Gathered(src, dims, a);
            Restored(OutDims(a), a.block, dest, mem, Range(0, |mem|)) == Selected(src, dims, a)
  {
    var d, mem := OutDims(a), Gathered(src, dims, a);
    GridOfBlocks(a);
    forall o | 0 <= o < Prod(d)
      ensures Restored(d, a.block, dest, mem, Range(0, |mem|))[o] == Selected(src, dims, a)[o]
    {
      TargetOfHome(d, a.block, o);
      OutputInside(dims, a, o);
      FlatUnflat(d, o);
      QuotRemInverse(d, a.block, Unflat(d, o));
      CellInverse(d, a.block, Quot(Unflat(d, o), a.block), Rem(Unflat(d, o), a.block));
    }
  }

  /** Number of cells before element `q` of block `c`. */
  function Before(a: Args, c: nat, q: nat): nat {
    c * Prod(a.block) + q
  }

  lemma NextBlock(a: Args, c: nat)
    ensures Before(a, c, Prod(a.block)) == Before(a, c + 1, 0)
  {
    Distrib(Prod(a.block), c, 1);
  }

  /** The cells before element `q` of block `c` have been copied. */
  ghost predicate CopiedTo(out: seq<int>, src: seq<int>, dims: Shape, a: Args, dest: seq<int>, c: nat, q: nat) {
    && Accepted(a, dims) && Tight(a, dims) && |src| == Prod(dims) && |dest| == Prod(OutDims(a))
    && out == Restored(OutDims(a), a.block, dest, Gathered(src, dims, a), Range(0, Before(a, c, q)))
  }

  /** What one element copy reads, writes and achieves. */
  lemma CopyStep(out: seq<int>, src: seq<int>, dims: Shape, a: Args, dest: seq<int>, c: nat, q: nat)
    requires CopiedTo(out, src, dims, a, dest, c, q)
    requires c < Prod(a.count) && q < Prod(a.block)
    ensures var b, e := Unflat(a.count, c), Unflat(a.block, q);
            var i, o := Flat(dims, Source(a, b, e)), Flat(OutDims(a), At(a.block, b, e));
            && i < |src| && o < |out|
            && CopiedTo(out[o := src[i]], src, dims, a, dest, c, q + 1)
  {
    var b, e, d, mem := Unflat(a.count, c), Unflat(a.block, q), OutDims(a), Gathered(src, dims, a);
    FlatUnflat(a.count, c);
    FlatUnflat(a.block, q);
    GridOfBlocks(a);
    var p := Before(a, c, q);
    assert p == Cell(d, a.block, b, e);
    CellInverse(d, a.block, b, e);
    SelectedAt(src, dims, a, b, e);
    RestoredStep(d, a.block, dest, mem, Range(0, p), p);
    assert Range(0, p) + {p} == Range(0, p + 1);
  }

  /** The views of blocks the copy walks: `range` over an array of shape `dims`. */
  ghost predicate BlocksOf(range: MultiDimRange, dims: Shape, count: Shape, stride: seq<nat>, start: seq<nat>) {
    && |dims| == |count| == |stride| == |start|
    && range.Valid() && range.globalDims == dims && range.localDims == count
    && range.globalStride == Times(Strides(dims), stride) && range.globalOffset == Dot(Strides(dims), start)
  }

  /** Offset of element `q` in the view nested at block `c`. */
  lemma ViewOffset(range: MultiDimRange, nested: MultiDimRange, dims: Shape, count: Shape, stride: seq<nat>,
                   start: seq<nat>, block: Shape, c: nat, q: nat)
    requires BlocksOf(range, dims, count, stride, start) && c < Prod(count)
    requires |block| == |dims| && nested.Valid() && nested.globalDims == dims && nested.localDims == block
    requires nested.globalStride == Times(Strides(dims), Ones(|dims|)) && nested.globalOffset == range.OffsetOf(c)
    requires q < Prod(block)
    ensures Positive(count) && Positive(block)
    ensures nested.OffsetOf(q)
         == Flat(dims, Plus(Plus(start, Times(Unflat(count, c), stride)), Unflat(block, q)))
  {
    ProdPositive(count);
    ProdPositive(block);
    NestedOffset(dims, start, stride, Unflat(count, c), Unflat(block, q));
  }

  method CopyBlock(srcBlocks: MultiDimRange, dstBlocks: MultiDimRange, src: array<int>, dst: array<int>,
                   ghost dims: Shape, a: Args, c: nat, ghost dest: seq<int>)
    requires src != dst && srcBlocks.origin == src && dstBlocks.origin == dst
    requires CopiedTo(dst[..], src[..], dims, a, dest, c, 0) && c < Prod(a.count)
    requires BlocksOf(srcBlocks, dims, a.count, a.stride, a.start)
    requires BlocksOf(dstBlocks, OutDims(a), a.count, a.block, Zeros(|dims|))
    modifies dst
    ensures CopiedTo(dst[..], src[..], dims, a, dest, c + 1, 0)
  {
    var ones := Ones(|a.block|);
    var srcBlock := new MultiDimRange.At(srcBlocks, c, a.block, ones);
    var dstBlock := new MultiDimRange.At(dstBlocks, c, a.block, ones);
    for q := 0 to srcBlock.localMaxDim
      invariant CopiedTo(dst[..], src[..], dims, a, dest, c, q)
    {
      ViewOffset(srcBlocks, srcBlock, dims, a.count, a.stride, a.start, a.block, c, q);
      ViewOffset(dstBlocks, dstBlock, OutDims(a), a.count, a.block, Zeros(|dims|), a.block, c, q);
      DestOffset(a, Unflat(a.count, c), Unflat(a.block, q));
      CopyStep(dst[..], src[..], dims, a, dest, c, q);
      var i := srcBlock.CurrentToOffset(q);
      var o := dstBlock.CurrentToOffset(q);
      dst[o] := src[i];
    }
    NextBlock(a, c);
  }

  method CopyMultiDims(src: array<int>, dst: array<int>, dims: Shape, a: Args)
    requires Accepted(a, dims) && Tight(a, dims) && src != dst
    requires src.Length == Prod(dims) && dst.Length == Prod(OutDims(a))
    modifies dst
    ensures dst[..] == Selected(src[..], dims, a)
  {
    ghost var dest := dst[..];
    var destDims := Multiply(a.block, a.count);
    var zeros := Zeros(|dims|);
    DotZeros(Strides(destDims));
    var srcBlocks := new MultiDimRange(src, dims, a.count, a.stride, a.start);
    var dstBlocks := new MultiDimRange(dst, destDims, a.count, a.block, zeros);
    GridOfBlocks(a);
    assert Range(0, Before(a, 0, 0)) == {};
    for c := 0 to srcBlocks.localMaxDim
      invariant CopiedTo(dst[..], src[..], dims, a, dest, c, 0)
    {
      CopyBlock(srcBlocks, dstBlocks, src, dst, dims, a, c, dest);
    }
    GatheredIsSelected(src[..], dims, a, dest);
  }

  datatype Selection = Empty(dims: Shape) | Chosen(dims: Shape, values: array<int>)

  /** `w` is what the caller set, or the default on every axis. */
  predicate Completes(v: seq<nat>, w: seq<nat>, default: nat, n: nat) {
    if v != [] then w == v else |w| == n && forall i :: 0 <= i < n ==> w[i] == default
  }

  /** `a` is `args` with start 0 and stride, count and block 1 written out on every axis
      where they are not set. */
  predicate WrittenOut(args: Args, a: Args, n: nat) {
    && Completes(args.start, a.start, 0, n) && Completes(args.stride, a.stride, 1, n)
    && Completes(args.count, a.count, 1, n) && Completes(args.block, a.block, 1, n)
  }

  function OrDefault(v: seq<nat>, default: seq<nat>): seq<nat> {
    if v == [] then default else v
  }

  function Resolve(a: Args, n: nat): (r: Args)
    ensures WrittenOut(a, r, n)
  {
    Args(OrDefault(a.start, Zeros(n)), OrDefault(a.stride, Ones(n)),
         OrDefault(a.count, Ones(n)), OrDefault(a.block, Ones(n)))
  }

  lemma WrittenOutOnce(args: Args, n: nat, a: Args)
    requires WrittenOut(args, a, n)
    ensures a == Resolve(args, n)
  {
    var r := Resolve(args, n);
    assert a.start == r.start && a.stride == r.stride;
    assert a.count == r.count && a.block == r.block;
  }

  /** The request is treated as the one with all arguments written out: rejected ones
      give an array without a buffer, the rest give the selection. */
  method Select(data: array<int>, dims: Shape, args: Args) returns (r: Selection)
    requires data.Length == Prod(dims)
    requires forall a :: WrittenOut(args, a, |dims|) && Accepted(a, dims) ==> Tight(a, dims)
    ensures exists a :: WrittenOut(args, a, |dims|)
    ensures r.Empty? ==> r.dims == dims && forall a :: WrittenOut(args, a, |dims|) ==> !Accepted(a, dims)
    ensures r.Chosen? ==>
              && fresh(r.values)
              && forall a :: WrittenOut(args, a, |dims|) ==>
                   Accepted(a, dims) && r.dims == OutDims(a) && r.values[..] == Selected(data[..], dims, a)
  {
    var a := Resolve(args, |dims|);
    assert WrittenOut(args, a, |dims|);
    forall c | WrittenOut(args, c, |dims|)
      ensures c == a
    {
      WrittenOutOnce(args, |dims|, c);
    }
    var ok := ValidateSelectArgs(a, dims);
    if !ok {
      return Empty(dims);
    }
    var outDims := Multiply(a.block, a.count);
    var size := Accumulate(outDims);
    var out := new int[size];
    CopyMultiDims(data, out, dims, a);
    return Chosen(outDims, out);
  }

  lemma {:induction false} ZeroProduct(dims: Shape, idx: seq<nat>)
    requires |idx| == |dims| && forall i :: 0 <= i < |dims| ==> idx[i] == 0
    ensures Flat(dims, idx) == 0
  {
    if dims != [] {
      ZeroProduct(dims[1..], idx[1..]);
    }
  }

  lemma {:induction false} OnesProduct(s: Shape)
    requires forall i :: 0 <= i < |s| ==> s[i] == 1
    ensures Prod(s) == 1
  {
    if s != [] {
      OnesProduct(s[1..]);
    }
  }

  lemma SourceFromZero(a: Args, b: seq<nat>, e: seq<nat>)
    requires |a.start| == |a.stride| == |b| == |e| && forall i :: 0 <= i < |a.start| ==> a.start[i] == 0
    ensures Source(a, b, e) == Plus(Times(b, a.stride), e)
  {
    assert Plus(a.start, Times(b, a.stride)) == Times(b, a.stride);
  }

  /** Without a start, the output at `b * block + e` is the source at `b * stride + e`. */
  lemma UnsetStart(src: seq<int>, dims: Shape, args: Args, a: Args, b: seq<nat>, e: seq<nat>)
    requires args.start == [] && WrittenOut(args, a, |dims|)
    requires Accepted(a, dims) && Tight(a, dims) && |src| == Prod(dims)
    requires InBox(a.count, b) && InBox(a.block, e)
    ensures Flat(OutDims(a), At(a.block, b, e)) < Prod(OutDims(a))
    ensures Flat(dims, Plus(Times(b, a.stride), e)) < |src|
    ensures Selected(src, dims, a)[Flat(OutDims(a), At(a.block, b, e))] == src[Flat(dims, Plus(Times(b, a.stride), e))]
  {
    SelectedAt(src, dims, a, b, e);
    SourceFromZero(a, b, e);
  }

  lemma NothingSetAccepted(dims: Shape, a: Args)
    requires |dims| >= 1 && Positive(dims) && WrittenOut(Args([], [], [], []), a, |dims|)
    ensures Accepted(a, dims) && Tight(a, dims) && Prod(OutDims(a)) == 1
  {
    OnesProduct(OutDims(a));
  }

  lemma AllZero(n: nat, s: seq<nat>)
    requires |s| == n
    ensures Plus(Times(Zeros(n), s), Zeros(n)) == Zeros(n) && At(s, Zeros(n), Zeros(n)) == Zeros(n)
  {
  }

  /** With nothing set, an array that has elements yields exactly its first one. */
  lemma NothingSet(src: seq<int>, dims: Shape, a: Args)
    requires |dims| >= 1 && Positive(dims) && |src| == Prod(dims)
    requires WrittenOut(Args([], [], [], []), a, |dims|)
    ensures Accepted(a, dims) && Tight(a, dims) && |src| >= 1
    ensures Selected(src, dims, a) == [src[0]]
  {
    var zero := Zeros(|dims|);
    ProdPositive(dims);
    NothingSetAccepted(dims, a);
    UnsetStart(src, dims, Args([], [], [], []), a, zero, zero);
    AllZero(|dims|, a.stride);
    AllZero(|dims|, a.block);
    ZeroProduct(dims, zero);
    ZeroProduct(OutDims(a), zero);
  }
}
