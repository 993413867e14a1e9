/** The rank 2 kernel. */
module Rank2 {
  import opened Layout
  import opened ChunkMap
  import opened Kernel
  import opened NestedLoops

  function Flat2(d: Shape, x: nat, y: nat): nat
    requires |d| == 2
  {
    Flat(d, [x, y])
  }

  /** The counters of two nested loops count in flat order. */
  lemma Carry2(d: Shape, x: nat, y: nat)
    requires |d| == 2
    ensures Flat2(d, x + 1, y) == Flat2(d, x, y) + 1
    ensures Flat2(d, d[0], y) == Flat2(d, 0, y + 1)
  {
    FlatBump(d, [x, y]);
    assert [x + 1] + [x, y][1..] == [x + 1, y];
    FlatCarry(d, [y]);
    assert [d[0]] + [y] == [d[0], y];
    assert [0] + ([y + 1] + [y][1..]) == [0, y + 1];
  }

  lemma Ends2(d: Shape, n: nat)
    requires |d| == 2
    ensures Flat2(d, 0, n) == n * Prod(d[..1])
    ensures n == d[1] ==> Flat2(d, 0, n) == Prod(d)
  {
    FlatFull(d, n);
    assert Zeros(1) + [n] == [0, n];
    ProdSnoc(d[..1], d[1]);
    assert d[..1] + [d[1]] == d;
  }

  lemma OffsetTerms(s0: int, s1: int, b0: int, b1: int, c0: int, c1: int, e0: int, e1: int,
                    x0: int, x1: int, base: int, offset: int)
    requires x0 == b0 * c0 + e0 && x1 == b1 * c1 + e1
    requires base == b0 * c0 * s0 + b1 * c1 * s1
    requires offset == base + e0 * s0 + e1 * s1
    ensures offset == s0 * x0 + s1 * x1
  {
    assert s0 * (b0 * c0 + e0) == b0 * c0 * s0 + e0 * s0;
    assert s1 * (b1 * c1 + e1) == b1 * c1 * s1 + e1 * s1;
  }

  lemma Dot2(a: seq<nat>, x: seq<nat>)
    requires |a| == |x| == 2
    ensures Dot(a, x) == a[0] * x[0] + a[1] * x[1]
  {
    assert a[1..][1..] == [] && x[1..][1..] == [];
    assert Dot(a[1..], x[1..]) == a[1] * x[1];
  }

  lemma FlatOfTwo(dims: Shape, x: seq<nat>)
    requires |dims| == |x| == 2
    ensures var st := Strides(dims); Flat(dims, x) == st[0] * x[0] + st[1] * x[1]
  {
    DotStrides(dims, x);
    Dot2(Strides(dims), x);
  }

  lemma Bounds2(dims: Shape, block: Shape, b: seq<nat>, e: seq<nat>)
    requires |dims| == |block| == |b| == 2 && InBox(block, e)
    ensures InBox(dims, At(block, b, e)) <==>
            e[0] + b[0] * block[0] < dims[0] && e[1] + b[1] * block[1] < dims[1]
    ensures block[0] * b[0] + block[0] < dims[0] ==> e[0] + b[0] * block[0] < dims[0]
    ensures block[1] * b[1] + block[1] < dims[1] ==> e[1] + b[1] * block[1] < dims[1]
  {
  }

  lemma Offset2(dims: Shape, block: Shape, b: seq<nat>, e: seq<nat>, st: seq<int>, base: int, offset: int)
    requires |dims| == |block| == |b| == |e| == 2 && st == Strides(dims)
    requires base == b[0] * block[0] * st[0] + b[1] * block[1] * st[1]
    requires offset == base + e[0] * st[0] + e[1] * st[1]
    ensures offset == Flat(dims, At(block, b, e))
  {
    var x := At(block, b, e);
    FlatOfTwo(dims, x);
    OffsetTerms(st[0], st[1], b[0], b[1], block[0], block[1], e[0], e[1], x[0], x[1], base, offset);
  }

  method Element2D(policy: Policy, data: array<int>, mem: array<int>, dims: Shape, block: Shape, strides: seq<nat>,
                   interior: bool, base: int, i: nat, j: nat, ei: nat, ej: nat, at: nat,
                   ghost s: Buffers, ghost done: set<nat>, ghost lo: nat)
    requires data != mem && Fits(dims, block, s) && |dims| == 2 && strides == Strides(dims)
    requires InBox(MaxIdx(dims, block), [i, j]) && InBox(block, [ei, ej])
    requires at == Cell(dims, block, [i, j], [ei, ej])
    requires base == i * block[0] * strides[0] + j * block[1] * strides[1]
    requires interior ==> block[0] * i + block[0] < dims[0] && block[1] * j + block[1] < dims[1]
    requires Upto(policy, Snap(data, mem), dims, block, s, done, lo, at)
    modifies data, mem
    ensures Upto(policy, Snap(data, mem), dims, block, s, done, lo, at + 1)
  {
    Bounds2(dims, block, [i, j], [ei, ej]);
    if interior || (ei + i * block[0] < dims[0] && ej + j * block[1] < dims[1]) {
      var offset := base + ei * strides[0] + ej * strides[1];
      Offset2(dims, block, [i, j], [ei, ej], strides, base, offset);
      VisitElement(policy, data, mem, true, offset, at, dims, block, [i, j], [ei, ej], s, done, lo);
    } else {
      VisitElement(policy, data, mem, false, 0, at, dims, block, [i, j], [ei, ej], s, done, lo);
    }
  }

  method Interior2D(dims: Shape, block: Shape, strides: seq<nat>, i: nat, j: nat)
    returns (base: int, interior: bool)
    requires |dims| == |block| == |strides| == 2
    ensures base == i * block[0] * strides[0] + j * block[1] * strides[1]
    ensures interior <==> block[0] * i + block[0] < dims[0] && block[1] * j + block[1] < dims[1]
  {
    base := i * block[0] * strides[0] + j * block[1] * strides[1];
    interior := block[0] * i + block[0] < dims[0] && block[1] * j + block[1] < dims[1];
  }

  /** One block: its elements in order, untested when the block lies in the interior. */
  method Block2D(policy: Policy, data: array<int>, mem: array<int>, dims: Shape, block: Shape, strides: seq<nat>,
                 i: nat, j: nat, elements: nat, ghost s: Buffers, ghost done: set<nat>)
    requires data != mem && Fits(dims, block, s) && |dims| == 2
    requires InBox(MaxIdx(dims, block), [i, j]) && strides == Strides(dims)
    requires elements == Flat2(MaxIdx(dims, block), i, j) * Prod(block)
    requires Snap(data, mem) == After(policy, dims, block, s, done)
    modifies data, mem
    ensures Upto(policy, Snap(data, mem), dims, block, s, done, elements, elements + Prod(block))
  {
    var base, interior := Interior2D(dims, block, strides, i, j);
    var at := elements;
    Ends2(block, 0);
    Ends2(block, block[1]);
    UptoStart(policy, Snap(data, mem), dims, block, s, done, elements);
    for ej := 0 to block[1]
      invariant at == elements + Flat2(block, 0, ej)
      invariant Upto(policy, Snap(data, mem), dims, block, s, done, elements, at)
    {
      for ei := 0 to block[0]
        invariant at == elements + Flat2(block, ei, ej)
        invariant Upto(policy, Snap(data, mem), dims, block, s, done, elements, at)
      {
        Element2D(policy, data, mem, dims, block, strides, interior, base, i, j, ei, ej, at, s, done, elements);
        Carry2(block, ei, ej);
        at := at + 1;
      }
      Carry2(block, 0, ej);
    }
  }

  /** First cell of block `[i, j]`. */
  function BlockStart2(dims: Shape, block: Shape, i: nat, j: nat): nat
    requires |dims| == |block| == 2 && Positive(block)
  {
    Flat2(MaxIdx(dims, block), i, j) * Prod(block)
  }

  lemma BlockStarts2(dims: Shape, block: Shape, i: nat, j: nat)
    requires |dims| == |block| == 2 && Positive(block)
    ensures BlockStart2(dims, block, i + 1, j) == BlockStart2(dims, block, i, j) + Prod(block)
    ensures BlockStart2(dims, block, MaxIdx(dims, block)[0], j) == BlockStart2(dims, block, 0, j + 1)
    ensures BlockStart2(dims, block, 0, j) == j * Width(dims, block)
  {
    var max := MaxIdx(dims, block);
    Carry2(max, i, j);
    MulSucc(Prod(block), Flat2(max, i, j), Flat2(max, i + 1, j));
    Ends2(max, j);
    WidthFacts(dims, block, j);
  }

  lemma SlabDone2(policy: Policy, now: Buffers, dims: Shape, block: Shape, s: Buffers, done: set<nat>, j: nat)
    requires |dims| == |block| == 2 && Positive(block)
    requires Upto(policy, now, dims, block, s, done,
                  BlockStart2(dims, block, 0, j), BlockStart2(dims, block, MaxIdx(dims, block)[0], j))
    ensures now == After(policy, dims, block, s, done + Slab(j, Width(dims, block)))
  {
    BlockStarts2(dims, block, 0, j);
    BlockStarts2(dims, block, 0, j + 1);
  }

  lemma TermsComm(a: nat, b: nat, i: nat, j: nat)
    ensures i * a + j * b == a * i + b * j
  {
  }

  method Locate2(ghost dims: Shape, ghost block: Shape, blockStride: seq<nat>, items: nat, i: nat, j: nat)
    returns (elements: nat)
    requires |dims| == |block| == 2 && Positive(block)
    requires blockStride == Strides(MaxIdx(dims, block)) && items == Prod(block)
    ensures elements == BlockStart2(dims, block, i, j)
  {
    FlatOfTwo(MaxIdx(dims, block), [i, j]);
    TermsComm(blockStride[0], blockStride[1], i, j);
    var outputIdx := i * blockStride[0] + j * blockStride[1];
    return outputIdx * items;
  }

  /** Body of the block loops: locates block `[i, j]` in chunk memory and visits it. */
  method NextBlock2D(policy: Policy, data: array<int>, mem: array<int>, dims: Shape, block: Shape,
                     strides: seq<nat>, blockStride: seq<nat>, items: nat, i: nat, j: nat,
                     ghost s: Buffers, ghost done: set<nat>, ghost lo: nat)
    requires data != mem && Fits(dims, block, s) && |dims| == 2 && strides == Strides(dims)
    requires InBox(MaxIdx(dims, block), [i, j])
    requires blockStride == Strides(MaxIdx(dims, block)) && items == Prod(block)
    requires Upto(policy, Snap(data, mem), dims, block, s, done, lo, BlockStart2(dims, block, i, j))
    modifies data, mem
    ensures Upto(policy, Snap(data, mem), dims, block, s, done, lo, BlockStart2(dims, block, i + 1, j))
  {
    ghost var at := BlockStart2(dims, block, i, j);
    var elements := Locate2(dims, block, blockStride, items, i, j);
    Block2D(policy, data, mem, dims, block, strides, i, j, elements, s, done + Range(lo, at));
    UptoMore(policy, Snap(data, mem), dims, block, s, done, lo, at, at + items);
    BlockStarts2(dims, block, i, j);
  }

  /** One iteration of the parallel loop: all blocks with outermost index `j`. */
  method Slab2D(policy: Policy, data: array<int>, mem: array<int>, dims: Shape, block: Shape, strides: seq<nat>,
                max: Shape, blockStride: seq<nat>, items: nat, j: nat, ghost s: Buffers, ghost done: set<nat>)
    requires data != mem && Fits(dims, block, s) && |dims| == 2 && strides == Strides(dims)
    requires max == MaxIdx(dims, block) && blockStride == Strides(max) && items == Prod(block) && j < max[1]
    requires Snap(data, mem) == After(policy, dims, block, s, done)
    modifies data, mem
    ensures Snap(data, mem) == After(policy, dims, block, s, done + Slab(j, Width(dims, block)))
  {
    ghost var lo := BlockStart2(dims, block, 0, j);
    UptoStart(policy, Snap(data, mem), dims, block, s, done, lo);
    for i := 0 to max[0]
      invariant Upto(policy, Snap(data, mem), dims, block, s, done, lo, BlockStart2(dims, block, i, j))
    {
      NextBlock2D(policy, data, mem, dims, block, strides, blockStride, items, i, j, s, done, lo);
    }
    SlabDone2(policy, Snap(data, mem), dims, block, s, done, j);
  }

  /** The rank 2 kernel: whatever the schedule, every cell has been visited. */
  method Dispatch2D(policy: Policy, data: array<int>, mem: array<int>, dims: Shape, block: Shape, schedule: seq<nat>)
    requires data != mem && Fits(dims, block, Snap(data, mem)) && |dims| == 2
    requires Covers(schedule, MaxIdx(dims, block)[1])
    modifies data, mem
    ensures Snap(data, mem) == After(policy, dims, block, old(Snap(data, mem)), Range(0, Total(dims, block)))
  {
    ghost var s := Snap(data, mem);
    ghost var w := Width(dims, block);
    var strides, max, blockStride, items := Setup(dims, block);
    assert After(policy, dims, block, s, {}) == s;
    for n := 0 to |schedule|
      invariant Snap(data, mem) == After(policy, dims, block, s, Slabs(schedule[..n], w))
    {
      Slab2D(policy, data, mem, dims, block, strides, max, blockStride, items, schedule[n],
             s, Slabs(schedule[..n], w));
      SlabsSnoc(schedule, n, w);
    }
    assert schedule[..|schedule|] == schedule;
    AllVisited(dims, block, schedule);
  }
}
