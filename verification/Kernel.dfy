/** The chunking kernels, in place on the array and on chunk memory.  Both copy
    policies share one kernel, as in the source; every method says which cells it
    has added to those already visited. */
module Kernel {
  import opened Layout
  import opened ChunkMap
  import opened Wrappers
  import opened Odometer

  ghost function Snap(data: array<int>, mem: array<int>): Buffers
    reads data, mem
  {
    Buffers(data[..], mem[..])
  }

  // ------------------------------------------------------- copy policies

  method CopyInBounds(policy: Policy, data: array<int>, mem: array<int>, p: nat, offset: nat,
                      ghost dims: Shape, ghost block: Shape)
    requires data != mem && Fits(dims, block, Snap(data, mem))
    requires p < mem.Length && Target(dims, block, p) == Some(offset)
    modifies data, mem
    ensures Snap(data, mem) == Visit(policy, dims, block, old(Snap(data, mem)), p)
  {
    HomeOfTarget(dims, block, p);
    match policy
    case ToBlocks => mem[p] := data[offset];
    case FromBlocks => data[offset] := mem[p];
  }

  method CopyOutOfBounds(policy: Policy, data: array<int>, mem: array<int>, p: nat,
                         ghost dims: Shape, ghost block: Shape)
    requires data != mem && Fits(dims, block, Snap(data, mem))
    requires p < mem.Length && Target(dims, block, p) == None
    modifies mem
    ensures Snap(data, mem) == Visit(policy, dims, block, old(Snap(data, mem)), p)
  {
    match policy
    case ToBlocks => mem[p] := 0;
    case FromBlocks =>
  }

  lemma RangeSnoc(done: set<nat>, lo: nat, n: nat)
    ensures done + Range(lo, lo + n) + {lo + n} == done + Range(lo, lo + n + 1)
  {
  }

  /** What the kernels rely on when they visit element `e` of block `b`. */
  lemma CellTarget(dims: Shape, block: Shape, b: seq<nat>, e: seq<nat>)
    requires |block| == |dims| && Positive(block)
    requires InBox(MaxIdx(dims, block), b) && InBox(block, e)
    ensures var p, x := Cell(dims, block, b, e), At(block, b, e);
            && p < Total(dims, block)
            && Target(dims, block, p) == if InBox(dims, x) then Some(Flat(dims, x)) else None
  {
    CellInverse(dims, block, b, e);
  }

  // ------------------------------------------------------------ any rank

  method InBounds(start: array<nat>, blockIdx: array<nat>, dims: Shape) returns (ok: bool)
    requires start.Length == blockIdx.Length == |dims|
    ensures ok <==> forall i :: 0 <= i < |dims| ==> start[i] + blockIdx[i] < dims[i]
  {
    for i := 0 to start.Length
      invariant forall k :: 0 <= k < i ==> start[k] + blockIdx[k] < dims[k]
    {
      if start[i] + blockIdx[i] >= dims[i] {
        return false;
      }
    }
    return true;
  }

  /** The offset both inner loops accumulate, for the element at `x`. */
  method Offset(start: array<nat>, blockIdx: array<nat>, strides: seq<nat>, ghost x: seq<nat>)
    returns (offset: nat)
    requires start.Length == blockIdx.Length == |strides| == |x|
    requires forall i :: 0 <= i < |x| ==> x[i] == start[i] + blockIdx[i]
    ensures offset == Dot(strides, x)
  {
    offset := 0;
    for i := 0 to start.Length
      invariant offset == Dot(strides[..i], x[..i])
    {
      DotSnoc(strides, x, i);
      assert (blockIdx[i] + start[i]) * strides[i] == strides[i] * x[i];
      offset := offset + (blockIdx[i] + start[i]) * strides[i];
    }
    assert strides[..start.Length] == strides && x[..start.Length] == x;
  }

  /** `start` holds the coordinates of the first element of block `b`. */
  ghost predicate StartsBlock(start: array<nat>, block: Shape, b: seq<nat>)
    reads start
  {
    start.Length == |block| == |b| && forall i :: 0 <= i < |b| ==> start[i] == b[i] * block[i]
  }

  /** What the inner loops know when they reach element `e` of block `b`: the cells
      of the block up to `e` have been added to `done`. */
  ghost predicate Reached(policy: Policy, now: Buffers, dims: Shape, block: Shape, s: Buffers, done: set<nat>,
                          b: seq<nat>, e: seq<nat>)
  {
    && Fits(dims, block, s)
    && InBox(MaxIdx(dims, block), b) && InBox(block, e)
    && now == After(policy, dims, block, s, done + Range(Cell(dims, block, b, Zeros(|block|)), Cell(dims, block, b, e)))
  }

  ghost predicate Passed(policy: Policy, now: Buffers, dims: Shape, block: Shape, s: Buffers, done: set<nat>,
                         b: seq<nat>, e: seq<nat>)
  {
    && Fits(dims, block, s)
    && InBox(MaxIdx(dims, block), b) && InBox(block, e)
    && now == After(policy, dims, block, s,
                    done + Range(Cell(dims, block, b, Zeros(|block|)), Cell(dims, block, b, e) + 1))
  }

  lemma PassCell(policy: Policy, now: Buffers, dims: Shape, block: Shape, s: Buffers, done: set<nat>,
                 b: seq<nat>, e: seq<nat>)
    requires Reached(policy, now, dims, block, s, done, b, e)
    ensures Cell(dims, block, b, e) < Total(dims, block)
    ensures Passed(policy, Visit(policy, dims, block, now, Cell(dims, block, b, e)), dims, block, s, done, b, e)
  {
    CellInverse(dims, block, b, e);
    FlatZeros(block);
    var lo, p := Cell(dims, block, b, Zeros(|block|)), Cell(dims, block, b, e);
    RangeSnoc(done, lo, p - lo);
    VisitStep(policy, dims, block, s, done + Range(lo, p), p);
  }

  /** Visits one element with the bounds test. */
  method VisitChecked(policy: Policy, data: array<int>, mem: array<int>,
                      start: array<nat>, dims: Shape, ghost block: Shape, strides: seq<nat>, blockIdx: array<nat>,
                      at: nat, ghost b: seq<nat>, ghost s: Buffers, ghost done: set<nat>)
    requires data != mem && Reached(policy, Snap(data, mem), dims, block, s, done, b, blockIdx[..])
    requires StartsBlock(start, block, b) && strides == Strides(dims)
    requires at == Cell(dims, block, b, blockIdx[..])
    modifies data, mem
    ensures Passed(policy, Snap(data, mem), dims, block, s, done, b, old(blockIdx[..]))
  {
    ghost var e := blockIdx[..];
    ghost var x := At(block, b, e);
    CellTarget(dims, block, b, e);
    PassCell(policy, Snap(data, mem), dims, block, s, done, b, e);
    DotStrides(dims, x);
    var inside := InBounds(start, blockIdx, dims);
    assert inside <==> InBox(dims, x);
    if inside {
      var offset := Offset(start, blockIdx, strides, x);
      CopyInBounds(policy, data, mem, at, offset, dims, block);
    } else {
      CopyOutOfBounds(policy, data, mem, at, dims, block);
    }
  }

  /** Visits one element of a block known to lie inside the array. */
  method VisitUnchecked(policy: Policy, data: array<int>, mem: array<int>,
                        start: array<nat>, ghost dims: Shape, ghost block: Shape, strides: seq<nat>,
                        blockIdx: array<nat>, at: nat, ghost b: seq<nat>, ghost s: Buffers, ghost done: set<nat>)
    requires data != mem && Reached(policy, Snap(data, mem), dims, block, s, done, b, blockIdx[..])
    requires StartsBlock(start, block, b) && strides == Strides(dims)
    requires InBox(dims, At(block, b, blockIdx[..]))
    requires at == Cell(dims, block, b, blockIdx[..])
    modifies data, mem
    ensures Passed(policy, Snap(data, mem), dims, block, s, done, b, old(blockIdx[..]))
  {
    ghost var e := blockIdx[..];
    CellTarget(dims, block, b, e);
    PassCell(policy, Snap(data, mem), dims, block, s, done, b, e);
    DotStrides(dims, At(block, b, e));
    var offset := Offset(start, blockIdx, strides, At(block, b, e));
    CopyInBounds(policy, data, mem, at, offset, dims, block);
  }

  /** The cells of one block. */
  function BlockCells(dims: Shape, block: Shape, b: seq<nat>): set<nat>
    requires |b| == |dims| == |block| && Positive(block)
  {
    var lo := Flat(MaxIdx(dims, block), b) * Prod(block);
    Range(lo, lo + Prod(block))
  }

  lemma CellNext(dims: Shape, block: Shape, b: seq<nat>, e: seq<nat>, f: seq<nat>)
    requires |b| == |dims| == |block| == |e| == |f| && Positive(block) && Flat(block, f) == Flat(block, e) + 1
    ensures Cell(dims, block, b, f) == Cell(dims, block, b, e) + 1
  {
  }

  /** The last element completes the cells of the block. */
  lemma CellsFrom(dims: Shape, block: Shape, b: seq<nat>, e: seq<nat>)
    requires |b| == |dims| == |block| == |e| && Positive(block) && Flat(block, e) + 1 == Prod(block)
    ensures Range(Cell(dims, block, b, Zeros(|block|)), Cell(dims, block, b, e) + 1) == BlockCells(dims, block, b)
  {
    FlatZeros(block);
  }

  /** The counter step after an element: either the next element has been reached
      or the block is complete. */
  lemma StepElement(policy: Policy, now: Buffers, dims: Shape, block: Shape, s: Buffers, done: set<nat>,
                    b: seq<nat>, e: seq<nat>)
    requires Passed(policy, now, dims, block, s, done, b, e)
    ensures InBox(block, Next(block, e)) && Carries(block, e) <= |block| && Flat(block, e) < Prod(block)
    ensures Carries(block, e) < |block| ==>
              && Flat(block, Next(block, e)) == Flat(block, e) + 1 < Prod(block)
              && Reached(policy, now, dims, block, s, done, b, Next(block, e))
    ensures Carries(block, e) == |block| ==>
              now == After(policy, dims, block, s, done + BlockCells(dims, block, b))
  {
    NextCounts(block, e);
    FlatInRange(block, e);
    if Carries(block, e) < |block| {
      CellNext(dims, block, b, e, Next(block, e));
    } else {
      CellsFrom(dims, block, b, e);
    }
  }

  method ResetIdx(blockIdx: array<nat>)
    modifies blockIdx
    ensures blockIdx[..] == Zeros(blockIdx.Length)
  {
    for i := 0 to blockIdx.Length
      invariant forall k :: 0 <= k < i ==> blockIdx[k] == 0
    {
      blockIdx[i] := 0;
    }
  }

  lemma StartElement(policy: Policy, now: Buffers, dims: Shape, block: Shape, s: Buffers, done: set<nat>, b: seq<nat>)
    requires Fits(dims, block, s) && InBox(MaxIdx(dims, block), b)
    requires now == After(policy, dims, block, s, done)
    ensures Reached(policy, now, dims, block, s, done, b, Zeros(|block|))
  {
    var lo := Cell(dims, block, b, Zeros(|block|));
    assert done + Range(lo, lo) == done;
  }

  /** Visits the cells of block `b`, testing every element against the bounds. */
  method PrepareBlock(policy: Policy, data: array<int>, mem: array<int>,
                      start: array<nat>, dims: Shape, block: Shape, strides: seq<nat>, blockIdx: array<nat>,
                      elements: nat, ghost b: seq<nat>, ghost s: Buffers, ghost done: set<nat>)
    requires Fits(dims, block, s) && strides == Strides(dims)
    requires InBox(MaxIdx(dims, block), b) && StartsBlock(start, block, b)
    requires blockIdx.Length == |block| && blockIdx != start && data != mem
    requires elements == Flat(MaxIdx(dims, block), b) * Prod(block)
    requires Snap(data, mem) == After(policy, dims, block, s, done)
    modifies data, mem, blockIdx
    ensures Snap(data, mem) == After(policy, dims, block, s, done + BlockCells(dims, block, b))
  {
    StartElement(policy, Snap(data, mem), dims, block, s, done, b);
    FlatZeros(block);
    ProdPositive(block);
    ResetIdx(blockIdx);
    var at := elements;
    var finished := false;
    while !finished
      invariant StartsBlock(start, block, b)
      invariant !finished ==>
        && Reached(policy, Snap(data, mem), dims, block, s, done, b, blockIdx[..])
        && at == Cell(dims, block, b, blockIdx[..])
        && Flat(block, blockIdx[..]) < Prod(block)
      invariant finished ==>
        Snap(data, mem) == After(policy, dims, block, s, done + BlockCells(dims, block, b))
      decreases if finished then 0 else Prod(block) - Flat(block, blockIdx[..])
    {
      ghost var e := blockIdx[..];
      VisitChecked(policy, data, mem, start, dims, block, strides, blockIdx, at, b, s, done);
      StepElement(policy, Snap(data, mem), dims, block, s, done, b, e);
      at := at + 1;
      var modified := IncrCounter(blockIdx, block);
      finished := modified == start.Length + 1;
    }
  }

  /** All elements of the block lie in the array. */
  ghost predicate BlockInside(dims: Shape, block: Shape, b: seq<nat>)
    requires |dims| == |block| == |b|
  {
    forall e :: InBox(block, e) ==> InBox(dims, At(block, b, e))
  }

  /** Visits the cells of a block that lies wholly inside the array, untested. */
  method PrepareBlockInBounds(policy: Policy, data: array<int>, mem: array<int>,
                              start: array<nat>, ghost dims: Shape, block: Shape, strides: seq<nat>,
                              blockIdx: array<nat>, elements: nat, ghost b: seq<nat>, ghost s: Buffers,
                              ghost done: set<nat>)
    requires Fits(dims, block, s) && strides == Strides(dims)
    requires InBox(MaxIdx(dims, block), b) && StartsBlock(start, block, b)
    requires BlockInside(dims, block, b)
    requires blockIdx.Length == |block| && blockIdx != start && data != mem
    requires elements == Flat(MaxIdx(dims, block), b) * Prod(block)
    requires Snap(data, mem) == After(policy, dims, block, s, done)
    modifies data, mem, blockIdx
    ensures Snap(data, mem) == After(policy, dims, block, s, done + BlockCells(dims, block, b))
  {
    StartElement(policy, Snap(data, mem), dims, block, s, done, b);
    FlatZeros(block);
    ProdPositive(block);
    ResetIdx(blockIdx);
    var at := elements;
    var finished := false;
    while !finished
      invariant StartsBlock(start, block, b)
      invariant !finished ==>
        && Reached(policy, Snap(data, mem), dims, block, s, done, b, blockIdx[..])
        && at == Cell(dims, block, b, blockIdx[..])
        && Flat(block, blockIdx[..]) < Prod(block)
      invariant finished ==>
        Snap(data, mem) == After(policy, dims, block, s, done + BlockCells(dims, block, b))
      decreases if finished then 0 else Prod(block) - Flat(block, blockIdx[..])
    {
      ghost var e := blockIdx[..];
      VisitUnchecked(policy, data, mem, start, dims, block, strides, blockIdx, at, b, s, done);
      StepElement(policy, Snap(data, mem), dims, block, s, done, b, e);
      at := at + 1;
      var modified := IncrCounter(blockIdx, block);
      finished := modified == start.Length + 1;
    }
  }

  /** Testing the last element of a block decides for the whole block. */
  lemma LastElementDecides(dims: Shape, block: Shape, b: seq<nat>)
    requires |dims| == |block| == |b| && Positive(block)
    requires forall i :: 0 <= i < |dims| ==> At(block, b, Zeros(|block|))[i] + (block[i] - 1) < dims[i]
    ensures BlockInside(dims, block, b)
  {
    forall e | InBox(block, e)
      ensures InBox(dims, At(block, b, e))
    {
      forall i | 0 <= i < |dims|
        ensures At(block, b, e)[i] < dims[i]
      {
        assert At(block, b, e)[i] == At(block, b, Zeros(|block|))[i] + e[i];
      }
    }
  }

  method SetCorner(start: array<nat>, inner: array<nat>, blockIdx: array<nat>, block: Shape)
    requires start.Length == inner.Length == blockIdx.Length == |block| && Positive(block)
    requires start != inner && start != blockIdx && inner != blockIdx
    modifies start, inner
    ensures StartsBlock(start, block, blockIdx[..])
    ensures start[..] == At(block, blockIdx[..], Zeros(|block|))
    ensures forall k :: 0 <= k < |block| ==> inner[k] == block[k] - 1
  {
    for i := 0 to start.Length
      invariant forall k :: 0 <= k < i ==> start[k] == blockIdx[k] * block[k]
    {
      start[i] := block[i] * blockIdx[i];
    }
    for i := 0 to inner.Length
      invariant StartsBlock(start, block, blockIdx[..])
      invariant forall k :: 0 <= k < i ==> inner[k] == block[k] - 1
    {
      inner[i] := block[i] - 1;
    }
  }

  /** The cells of block `b` follow those of the blocks before it. */
  lemma BlockAtEnd(dims: Shape, block: Shape, b: seq<nat>)
    requires |block| == |dims| && Positive(block) && |b| == |dims|
    ensures var lo := Flat(MaxIdx(dims, block), b) * Prod(block);
            Range(0, lo) + BlockCells(dims, block, b) == Range(0, lo + Prod(block))
  {
  }

  method BlocksAlong(extent: nat, size: nat) returns (blocks: nat)
    requires size >= 1
    ensures blocks == CeilDiv(extent, size)
  {
    if extent % size == 0 {
      DivExact(extent, size);
      return extent / size;
    }
    return extent / size + 1;
  }

  method BlockCounts(dims: Shape, block: Shape) returns (maxIdx: seq<nat>, items: nat)
    requires |block| == |dims| && Positive(block)
    ensures maxIdx == MaxIdx(dims, block) && items == Prod(block)
  {
    maxIdx, items := [], 1;
    for i := 0 to |dims|
      invariant |maxIdx| == i && forall k :: 0 <= k < i ==> maxIdx[k] == CeilDiv(dims[k], block[k])
      invariant items == Prod(block[..i])
    {
      var blocks := BlocksAlong(dims[i], block[i]);
      maxIdx := maxIdx + [blocks];
      ProdPrefix(block, i);
      items := items * block[i];
    }
    assert block[..|block|] == block;
  }

  /** The blocks before `b` have been visited, in order. */
  ghost predicate AtBlock(policy: Policy, now: Buffers, dims: Shape, block: Shape, s: Buffers, b: seq<nat>) {
    && Fits(dims, block, s) && InBox(MaxIdx(dims, block), b)
    && now == After(policy, dims, block, s, Range(0, Flat(MaxIdx(dims, block), b) * Prod(block)))
  }

  lemma FirstBlock(policy: Policy, dims: Shape, block: Shape, s: Buffers)
    requires Fits(dims, block, s) && Positive(dims)
    ensures AtBlock(policy, s, dims, block, s, Zeros(|dims|))
    ensures Flat(MaxIdx(dims, block), Zeros(|dims|)) == 0 < Prod(MaxIdx(dims, block))
  {
    FlatZeros(MaxIdx(dims, block));
    ProdPositive(MaxIdx(dims, block));
    assert After(policy, dims, block, s, Range(0, 0)) == s;
  }

  /** After block `b`: either the next block has been reached or none is left. */
  lemma StepBlock(policy: Policy, now: Buffers, dims: Shape, block: Shape, s: Buffers, b: seq<nat>, elements: nat)
    requires Fits(dims, block, s) && InBox(MaxIdx(dims, block), b)
    requires elements == Flat(MaxIdx(dims, block), b) * Prod(block)
    requires now == After(policy, dims, block, s, Range(0, elements + Prod(block)))
    ensures var max, next := MaxIdx(dims, block), Next(MaxIdx(dims, block), b);
            && Carries(max, b) <= |dims| && Flat(max, b) < Prod(max)
            && (Carries(max, b) < |dims| ==>
                  && AtBlock(policy, now, dims, block, s, next)
                  && elements + Prod(block) == Flat(max, next) * Prod(block)
                  && Flat(max, b) < Flat(max, next) < Prod(max))
            && (Carries(max, b) == |dims| ==>
                  now == After(policy, dims, block, s, Range(0, Total(dims, block))))
  {
    var max := MaxIdx(dims, block);
    NextCounts(max, b);
    FlatInRange(max, b);
    SuccMul(Flat(max, b), Prod(block), Flat(max, b) + 1);
  }

  /** Copies block `blockIdx`: sets up its start, tests its last element and picks
      the inner loop. */
  method VisitBlock(policy: Policy, data: array<int>, mem: array<int>, stride: seq<nat>, dims: Shape, block: Shape,
                    blockIdx: array<nat>, start: array<nat>, inner: array<nat>, elements: nat, ghost s: Buffers)
    requires data != mem && blockIdx != start && blockIdx != inner && start != inner
    requires blockIdx.Length == start.Length == inner.Length == |dims| && stride == Strides(dims)
    requires AtBlock(policy, Snap(data, mem), dims, block, s, blockIdx[..])
    requires elements == Flat(MaxIdx(dims, block), blockIdx[..]) * Prod(block)
    modifies data, mem, start, inner
    ensures Snap(data, mem) == After(policy, dims, block, s, Range(0, elements + Prod(block)))
  {
    ghost var b := blockIdx[..];
    BlockAtEnd(dims, block, b);
    SetCorner(start, inner, blockIdx, block);
    ghost var corner := start[..];
    var inside := InBounds(start, inner, dims);
    if inside {
      assert forall i :: 0 <= i < |dims| ==> corner[i] + (block[i] - 1) < dims[i];
      LastElementDecides(dims, block, b);
      PrepareBlockInBounds(policy, data, mem, start, dims, block, stride, inner, elements, b, s, Range(0, elements));
    } else {
      PrepareBlock(policy, data, mem, start, dims, block, stride, inner, elements, b, s, Range(0, elements));
    }
  }

  /** The any-rank kernel: walks the blocks with one odometer and the elements of
      each block with another, and ends having visited every cell. */
  method Work(policy: Policy, data: array<int>, mem: array<int>, stride: seq<nat>, dims: Shape, block: Shape)
    requires data != mem && Fits(dims, block, Snap(data, mem))
    requires Positive(dims) && stride == Strides(dims)
    modifies data, mem
    ensures Snap(data, mem) == After(policy, dims, block, old(Snap(data, mem)), Range(0, Total(dims, block)))
  {
    ghost var s := Snap(data, mem);
    var blockIdx, start, inner := new nat[|dims|], new nat[|dims|], new nat[|dims|];
    ResetIdx(blockIdx);
    var maxIdx, items := BlockCounts(dims, block);
    FirstBlock(policy, dims, block, s);
    var elements := 0;
    var finished := false;
    while !finished
      invariant !finished ==>
        && AtBlock(policy, Snap(data, mem), dims, block, s, blockIdx[..])
        && elements == Flat(maxIdx, blockIdx[..]) * items
        && Flat(maxIdx, blockIdx[..]) < Prod(maxIdx)
      invariant finished ==> Snap(data, mem) == After(policy, dims, block, s, Range(0, Total(dims, block)))
      decreases if finished then 0 else Prod(maxIdx) - Flat(maxIdx, blockIdx[..])
    {
      VisitBlock(policy, data, mem, stride, dims, block, blockIdx, start, inner, elements, s);
      StepBlock(policy, Snap(data, mem), dims, block, s, blockIdx[..], elements);
      var modified := IncrCounter(blockIdx, maxIdx);
      finished := modified == |dims| + 1;
      elements := elements + items;
    }
  }
}
