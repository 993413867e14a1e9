/** The rank 1 kernel. */
module Rank1 {
  import opened Layout
  import opened ChunkMap
  import opened Kernel
  import opened NestedLoops

  lemma FlatOfOne(dims: Shape, x: nat)
    requires |dims| == 1
    ensures Flat(dims, [x]) == x && Strides(dims) == [1]
    ensures Prod(dims) == dims[0] && Prod(dims[..0]) == 1
  {
    assert dims[1..] == [] && [x][1..] == [] && dims[..0] == [];
  }

  lemma Offset1(dims: Shape, block: Shape, i: nat, ei: nat, st: int, base: int, offset: int)
    requires |dims| == |block| == 1 && st == Strides(dims)[0]
    requires base == i * block[0] * st && offset == base + ei * st
    ensures At(block, [i], [ei]) == [ei + i * block[0]]
    ensures offset == Flat(dims, At(block, [i], [ei]))
  {
    FlatOfOne(dims, ei + i * block[0]);
    TimesOne(i * block[0], st);
    TimesOne(ei, st);
  }

  lemma TimesOne(x: int, one: int)
    requires one == 1
    ensures x * one == x
  {
  }

  /** One block: its elements in order, untested when the block lies in the interior. */
  method Block1D(policy: Policy, data: array<int>, mem: array<int>, dims: Shape, block: Shape, strides: seq<nat>,
                 i: nat, elements: nat, ghost s: Buffers, ghost done: set<nat>)
    requires data != mem && Fits(dims, block, s) && |dims| == 1
    requires InBox(MaxIdx(dims, block), [i]) && strides == Strides(dims)
    requires elements == Flat(MaxIdx(dims, block), [i]) * Prod(block)
    requires Snap(data, mem) == After(policy, dims, block, s, done)
    modifies data, mem
    ensures Upto(policy, Snap(data, mem), dims, block, s, done, elements, elements + Prod(block))
  {
    var base := i * block[0] * strides[0];
    var interior := block[0] * i + block[0] < dims[0];
    UptoStart(policy, Snap(data, mem), dims, block, s, done, elements);
    FlatOfOne(block, 0);
    for ei := 0 to block[0]
      invariant Upto(policy, Snap(data, mem), dims, block, s, done, elements, elements + ei)
    {
      var offset := base + ei * strides[0];
      FlatOfOne(block, ei);
      Offset1(dims, block, i, ei, strides[0], base, offset);
      var inside := interior || ei + i * block[0] < dims[0];
      VisitElement(policy, data, mem, inside, offset, elements + ei, dims, block, [i], [ei], s, done, elements);
    }
  }

  /** One iteration of the parallel loop: block `i`. */
  method Slab1D(policy: Policy, data: array<int>, mem: array<int>, dims: Shape, block: Shape, strides: seq<nat>,
                blockStride: seq<nat>, items: nat, i: nat, ghost s: Buffers, ghost done: set<nat>)
    requires data != mem && Fits(dims, block, s) && |dims| == 1 && strides == Strides(dims)
    requires blockStride == Strides(MaxIdx(dims, block)) && items == Prod(block) && i < MaxIdx(dims, block)[0]
    requires Snap(data, mem) == After(policy, dims, block, s, done)
    modifies data, mem
    ensures Snap(data, mem) == After(policy, dims, block, s, done + Slab(i, Width(dims, block)))
  {
    var elements := Locate1(dims, block, blockStride, items, i);
    Block1D(policy, data, mem, dims, block, strides, i, elements, s, done);
    SlabIsBlock(dims, block, i);
  }

  method Locate1(ghost dims: Shape, ghost block: Shape, blockStride: seq<nat>, items: nat, i: nat)
    returns (elements: nat)
    requires |dims| == |block| == 1 && Positive(block)
    requires blockStride == Strides(MaxIdx(dims, block)) && items == Prod(block)
    ensures elements == Flat(MaxIdx(dims, block), [i]) * items
  {
    FlatOfOne(MaxIdx(dims, block), i);
    TimesOne(i, blockStride[0]);
    var outputIdx := i * blockStride[0];
    return outputIdx * items;
  }

  lemma SlabIsBlock(dims: Shape, block: Shape, i: nat)
    requires |dims| == |block| == 1 && Positive(block)
    ensures var lo := Flat(MaxIdx(dims, block), [i]) * Prod(block);
            Slab(i, Width(dims, block)) == Range(lo, lo + Prod(block))
  {
    FlatOfOne(MaxIdx(dims, block), i);
    WidthOfOne(dims, block);
    MulSucc(Prod(block), i, i + 1);
  }

  lemma WidthOfOne(dims: Shape, block: Shape)
    requires |dims| == |block| == 1 && Positive(block)
    ensures Width(dims, block) == Prod(block)
  {
    FlatOfOne(MaxIdx(dims, block), 0);
  }

  /** The rank 1 kernel: whatever the schedule, every cell has been visited. */
  method Dispatch1D(policy: Policy, data: array<int>, mem: array<int>, dims: Shape, block: Shape, schedule: seq<nat>)
    requires data != mem && Fits(dims, block, Snap(data, mem)) && |dims| == 1
    requires Covers(schedule, MaxIdx(dims, block)[0])
    modifies data, mem
    ensures Snap(data, mem) == After(policy, dims, block, old(Snap(data, mem)), Range(0, Total(dims, block)))
  {
    ghost var s := Snap(data, mem);
    ghost var w := Width(dims, block);
    var strides, max, blockStride, items := Setup(dims, block);
    assert After(policy, dims, block, s, {}) == s;
    for n := 0 to |schedule|
      invariant Snap(data, mem) == After(policy, dims, block, s, Slabs(schedule[..n], w))
    {
      Slab1D(policy, data, mem, dims, block, strides, blockStride, items, schedule[n], s, Slabs(schedule[..n], w));
      SlabsSnoc(schedule, n, w);
    }
    assert schedule[..|schedule|] == schedule;
    AllVisited(dims, block, schedule);
  }
}
