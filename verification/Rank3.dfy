/** The rank 3 kernel. */
module Rank3 {
  import opened Layout
  import opened ChunkMap
  import opened Kernel
  import opened NestedLoops

  function Flat3(d: Shape, x: nat, y: nat, z: nat): nat
    requires |d| == 3
  {
    Flat(d, [x, y, z])
  }

  /** The counters of three nested loops count in flat order. */
  lemma Carry3(d: Shape, x: nat, y: nat, z: nat)
    requires |d| == 3
    ensures Flat3(d, x + 1, y, z) == Flat3(d, x, y, z) + 1
    ensures Flat3(d, d[0], y, z) == Flat3(d, 0, y + 1, z)
    ensures Flat3(d, 0, d[1], z) == Flat3(d, 0, 0, z + 1)
  {
    FlatBump(d, [x, y, z]);
    assert [x + 1] + [x, y, z][1..] == [x + 1, y, z];
    FlatCarry(d, [y, z]);
    assert [d[0]] + [y, z] == [d[0], y, z];
    assert [0] + ([y + 1] + [y, z][1..]) == [0, y + 1, z];
    FlatCarry(d[1..], [z]);
    assert [d[1..][0]] + [z] == [0, d[1], z][1..];
    assert [0] + ([z + 1] + [z][1..]) == [0, 0, z + 1][1..];
  }

  lemma Ends3(d: Shape, n: nat)
    requires |d| == 3
    ensures Flat3(d, 0, 0, n) == n * Prod(d[..2])
    ensures n == d[2] ==> Flat3(d, 0, 0, n) == Prod(d)
  {
    FlatFull(d, n);
    assert Zeros(2) + [n] == [0, 0, n];
    ProdSnoc(d[..2], d[2]);
    assert d[..2] + [d[2]] == d;
  }

  lemma OffsetTerms(s0: int, s1: int, s2: int, b0: int, b1: int, b2: int, c0: int, c1: int, c2: int,
                    e0: int, e1: int, e2: int, x0: int, x1: int, x2: int, base: int, offset: int)
    requires x0 == b0 * c0 + e0 && x1 == b1 * c1 + e1 && x2 == b2 * c2 + e2
    requires base == b0 * c0 * s0 + b1 * s1 * c1 + b2 * s2 * c2
    requires offset == base + e0 * s0 + e1 * s1 + e2 * s2
    ensures offset == s0 * x0 + s1 * x1 + s2 * x2
  {
    assert s0 * (b0 * c0 + e0) == b0 * c0 * s0 + e0 * s0;
    assert s1 * (b1 * c1 + e1) == b1 * s1 * c1 + e1 * s1;
    assert s2 * (b2 * c2 + e2) == b2 * s2 * c2 + e2 * s2;
  }

  lemma Dot3(a: seq<nat>, x: nat, y: nat, z: nat)
    requires |a| == 3
    ensures Dot(a, [x, y, z]) == a[0] * x + a[1] * y + a[2] * z
  {
    assert a == [a[0], a[1], a[2]];
    assert [a[0], a[1], a[2]][1..] == [a[1], a[2]] && [a[1], a[2]][1..] == [a[2]] && [a[2]][1..] == [];
    assert [x, y, z][1..] == [y, z] && [y, z][1..] == [z] && [z][1..] == [];
    assert Dot([], []) == 0 && Dot([a[2]], [z]) == a[2] * z;
    assert Dot([a[1], a[2]], [y, z]) == a[1] * y + a[2] * z;
  }

  lemma FlatOfThree(dims: Shape, x: seq<nat>)
    requires |dims| == |x| == 3
    ensures var st := Strides(dims); Flat(dims, x) == st[0] * x[0] + st[1] * x[1] + st[2] * x[2]
  {
    DotStrides(dims, x);
    Dot3(Strides(dims), x[0], x[1], x[2]);
    assert x == [x[0], x[1], x[2]];
  }

  /** The rank 3 bounds test, in both of the forms the loops use. */
  lemma Bounds3(dims: Shape, block: Shape, b: seq<nat>, e: seq<nat>)
    requires |dims| == |block| == |b| == 3 && InBox(block, e)
    ensures InBox(dims, At(block, b, e)) <==>
            && e[0] + b[0] * block[0] < dims[0]
            && e[1] + b[1] * block[1] < dims[1]
            && e[2] + b[2] * block[2] < dims[2]
    ensures block[0] * b[0] + block[0] < dims[0] ==> e[0] + b[0] * block[0] < dims[0]
    ensures block[1] * b[1] + block[1] < dims[1] ==> e[1] + b[1] * block[1] < dims[1]
    ensures block[2] * b[2] + block[2] < dims[2] ==> e[2] + b[2] * block[2] < dims[2]
  {
  }

  /** The rank 3 offset is the flat position of the element. */
  lemma Offset3(dims: Shape, block: Shape, b: seq<nat>, e: seq<nat>, st: seq<int>, base: int, offset: int)
    requires |dims| == |block| == |b| == |e| == 3 && st == Strides(dims)
    requires base == b[0] * block[0] * st[0] + b[1] * st[1] * block[1] + b[2] * st[2] * block[2]
    requires offset == base + e[0] * st[0] + e[1] * st[1] + e[2] * st[2]
    ensures offset == Flat(dims, At(block, b, e))
  {
    var x := At(block, b, e);
    FlatOfThree(dims, x);
    OffsetTerms(st[0], st[1], st[2], b[0], b[1], b[2], block[0], block[1], block[2], e[0], e[1], e[2],
                x[0], x[1], x[2], base, offset);
  }

  method Element3D(policy: Policy, data: array<int>, mem: array<int>, dims: Shape, block: Shape, strides: seq<nat>,
                   interior: bool, base: int, i: nat, j: nat, k: nat, ei: nat, ej: nat, ek: nat, at: nat,
                   ghost s: Buffers, ghost done: set<nat>, ghost lo: nat)
    requires data != mem && Fits(dims, block, s) && |dims| == 3 && strides == Strides(dims)
    requires InBox(MaxIdx(dims, block), [i, j, k]) && InBox(block, [ei, ej, ek])
    requires at == Cell(dims, block, [i, j, k], [ei, ej, ek])
    requires base == i * block[0] * strides[0] + j * strides[1] * block[1] + k * strides[2] * block[2]
    requires interior ==>
      block[0] * i + block[0] < dims[0] && block[1] * j + block[1] < dims[1] && block[2] * k + block[2] < dims[2]
    requires Upto(policy, Snap(data, mem), dims, block, s, done, lo, at)
    modifies data, mem
    ensures Upto(policy, Snap(data, mem), dims, block, s, done, lo, at + 1)
  {
    Bounds3(dims, block, [i, j, k], [ei, ej, ek]);
    if interior || (ei + i * block[0] < dims[0] && ej + j * block[1] < dims[1] && ek + k * block[2] < dims[2]) {
      var offset := base + ei * strides[0] + ej * strides[1] + ek * strides[2];
      Offset3(dims, block, [i, j, k], [ei, ej, ek], strides, base, offset);
      VisitElement(policy, data, mem, true, offset, at, dims, block, [i, j, k], [ei, ej, ek], s, done, lo);
    } else {
      VisitElement(policy, data, mem, false, 0, at, dims, block, [i, j, k], [ei, ej, ek], s, done, lo);
    }
  }

  method Interior3D(dims: Shape, block: Shape, strides: seq<nat>, i: nat, j: nat, k: nat)
    returns (base: int, interior: bool)
    requires |dims| == |block| == |strides| == 3
    ensures base == i * block[0] * strides[0] + j * strides[1] * block[1] + k * strides[2] * block[2]
    ensures interior <==>
      block[0] * i + block[0] < dims[0] && block[1] * j + block[1] < dims[1] && block[2] * k + block[2] < dims[2]
  {
    base := i * block[0] * strides[0] + j * strides[1] * block[1] + k * strides[2] * block[2];
    interior :=
      block[0] * i + block[0] < dims[0] && block[1] * j + block[1] < dims[1] && block[2] * k + block[2] < dims[2];
  }

  /** The elements of one block with outermost index `ek`. */
  method Plane3D(policy: Policy, data: array<int>, mem: array<int>, dims: Shape, block: Shape, strides: seq<nat>,
                 interior: bool, base: int, i: nat, j: nat, k: nat, ek: nat, elements: nat, from: nat,
                 ghost s: Buffers, ghost done: set<nat>)
    returns (at: nat)
    requires data != mem && Fits(dims, block, s) && |dims| == 3 && strides == Strides(dims)
    requires InBox(MaxIdx(dims, block), [i, j, k]) && ek < block[2]
    requires elements == Flat3(MaxIdx(dims, block), i, j, k) * Prod(block)
    requires base == i * block[0] * strides[0] + j * strides[1] * block[1] + k * strides[2] * block[2]
    requires interior ==>
      block[0] * i + block[0] < dims[0] && block[1] * j + block[1] < dims[1] && block[2] * k + block[2] < dims[2]
    requires from == elements + Flat3(block, 0, 0, ek)
    requires Upto(policy, Snap(data, mem), dims, block, s, done, elements, from)
    modifies data, mem
    ensures at == elements + Flat3(block, 0, 0, ek + 1)
    ensures Upto(policy, Snap(data, mem), dims, block, s, done, elements, at)
  {
    at := from;
    for ej := 0 to block[1]
      invariant at == elements + Flat3(block, 0, ej, ek)
      invariant Upto(policy, Snap(data, mem), dims, block, s, done, elements, at)
    {
      for ei := 0 to block[0]
        invariant at == elements + Flat3(block, ei, ej, ek)
        invariant Upto(policy, Snap(data, mem), dims, block, s, done, elements, at)
      {
        Element3D(policy, data, mem, dims, block, strides, interior, base, i, j, k, ei, ej, ek, at,
                  s, done, elements);
        Carry3(block, ei, ej, ek);
        at := at + 1;
      }
      Carry3(block, 0, ej, ek);
    }
    Carry3(block, 0, 0, ek);
  }

  /** One block: its elements in order, untested when the block lies in the interior. */
  method Block3D(policy: Policy, data: array<int>, mem: array<int>, dims: Shape, block: Shape, strides: seq<nat>,
                 i: nat, j: nat, k: nat, elements: nat, ghost s: Buffers, ghost done: set<nat>)
    requires data != mem && Fits(dims, block, s) && |dims| == 3
    requires InBox(MaxIdx(dims, block), [i, j, k]) && strides == Strides(dims)
    requires elements == Flat3(MaxIdx(dims, block), i, j, k) * Prod(block)
    requires Snap(data, mem) == After(policy, dims, block, s, done)
    modifies data, mem
    ensures Upto(policy, Snap(data, mem), dims, block, s, done, elements, elements + Prod(block))
  {
    var base, interior := Interior3D(dims, block, strides, i, j, k);
    var at := elements;
    Ends3(block, 0);
    Ends3(block, block[2]);
    UptoStart(policy, Snap(data, mem), dims, block, s, done, elements);
    for ek := 0 to block[2]
      invariant at == elements + Flat3(block, 0, 0, ek)
      invariant Upto(policy, Snap(data, mem), dims, block, s, done, elements, at)
    {
      at := Plane3D(policy, data, mem, dims, block, strides, interior, base, i, j, k, ek, elements, at, s, done);
    }
  }

  /** First cell of block `[i, j, k]`. */
  function BlockStart3(dims: Shape, block: Shape, i: nat, j: nat, k: nat): nat
    requires |dims| == |block| == 3 && Positive(block)
  {
    Flat3(MaxIdx(dims, block), i, j, k) * Prod(block)
  }

  lemma BlockStarts3(dims: Shape, block: Shape, i: nat, j: nat, k: nat)
    requires |dims| == |block| == 3 && Positive(block)
    ensures BlockStart3(dims, block, i + 1, j, k) == BlockStart3(dims, block, i, j, k) + Prod(block)
    ensures BlockStart3(dims, block, MaxIdx(dims, block)[0], j, k) == BlockStart3(dims, block, 0, j + 1, k)
    ensures BlockStart3(dims, block, 0, MaxIdx(dims, block)[1], k) == BlockStart3(dims, block, 0, 0, k + 1)
    ensures BlockStart3(dims, block, 0, 0, k) == k * Width(dims, block)
  {
    var max := MaxIdx(dims, block);
    Carry3(max, i, j, k);
    MulSucc(Prod(block), Flat3(max, i, j, k), Flat3(max, i + 1, j, k));
    Ends3(max, k);
    WidthFacts(dims, block, k);
  }

  lemma SlabDone3(policy: Policy, now: Buffers, dims: Shape, block: Shape, s: Buffers, done: set<nat>, k: nat)
    requires |dims| == |block| == 3 && Positive(block)
    requires Upto(policy, now, dims, block, s, done,
                  BlockStart3(dims, block, 0, 0, k), BlockStart3(dims, block, 0, MaxIdx(dims, block)[1], k))
    ensures now == After(policy, dims, block, s, done + Slab(k, Width(dims, block)))
  {
    BlockStarts3(dims, block, 0, 0, k);
    BlockStarts3(dims, block, 0, 0, k + 1);
  }

  lemma TermsComm(a: nat, b: nat, c: nat, i: nat, j: nat, k: nat)
    ensures i * a + j * b + k * c == a * i + b * j + c * k
  {
  }

  method Locate3(ghost dims: Shape, ghost block: Shape, blockStride: seq<nat>, items: nat, i: nat, j: nat, k: nat)
    returns (elements: nat)
    requires |dims| == |block| == 3 && Positive(block)
    requires blockStride == Strides(MaxIdx(dims, block)) && items == Prod(block)
    ensures elements == BlockStart3(dims, block, i, j, k)
  {
    FlatOfThree(MaxIdx(dims, block), [i, j, k]);
    TermsComm(blockStride[0], blockStride[1], blockStride[2], i, j, k);
    var outputIdx := i * blockStride[0] + j * blockStride[1] + k * blockStride[2];
    return outputIdx * items;
  }

  /** Body of the block loops: locates block `[i, j, k]` in chunk memory and visits it. */
  method NextBlock3D(policy: Policy, data: array<int>, mem: array<int>, dims: Shape, block: Shape,
                     strides: seq<nat>, blockStride: seq<nat>, items: nat, i: nat, j: nat, k: nat,
                     ghost s: Buffers, ghost done: set<nat>, ghost lo: nat)
    requires data != mem && Fits(dims, block, s) && |dims| == 3 && strides == Strides(dims)
    requires InBox(MaxIdx(dims, block), [i, j, k])
    requires blockStride == Strides(MaxIdx(dims, block)) && items == Prod(block)
    requires Upto(policy, Snap(data, mem), dims, block, s, done, lo, BlockStart3(dims, block, i, j, k))
    modifies data, mem
    ensures Upto(policy, Snap(data, mem), dims, block, s, done, lo, BlockStart3(dims, block, i + 1, j, k))
  {
    ghost var at := BlockStart3(dims, block, i, j, k);
    var elements := Locate3(dims, block, blockStride, items, i, j, k);
    Block3D(policy, data, mem, dims, block, strides, i, j, k, elements, s, done + Range(lo, at));
    UptoMore(policy, Snap(data, mem), dims, block, s, done, lo, at, at + items);
    BlockStarts3(dims, block, i, j, k);
  }

  /** One iteration of the parallel loop: all blocks with outermost index `k`. */
  method Slab3D(policy: Policy, data: array<int>, mem: array<int>, dims: Shape, block: Shape, strides: seq<nat>,
                max: Shape, blockStride: seq<nat>, items: nat, k: nat, ghost s: Buffers, ghost done: set<nat>)
    requires data != mem && Fits(dims, block, s) && |dims| == 3 && strides == Strides(dims)
    requires max == MaxIdx(dims, block) && blockStride == Strides(max) && items == Prod(block) && k < max[2]
    requires Snap(data, mem) == After(policy, dims, block, s, done)
    modifies data, mem
    ensures Snap(data, mem) == After(policy, dims, block, s, done + Slab(k, Width(dims, block)))
  {
    ghost var lo := BlockStart3(dims, block, 0, 0, k);
    UptoStart(policy, Snap(data, mem), dims, block, s, done, lo);
    for j := 0 to max[1]
      invariant Upto(policy, Snap(data, mem), dims, block, s, done, lo, BlockStart3(dims, block, 0, j, k))
    {
      for i := 0 to max[0]
        invariant Upto(policy, Snap(data, mem), dims, block, s, done, lo, BlockStart3(dims, block, i, j, k))
      {
        NextBlock3D(policy, data, mem, dims, block, strides, blockStride, items, i, j, k, s, done, lo);
      }
      BlockStarts3(dims, block, 0, j, k);
    }
    SlabDone3(policy, Snap(data, mem), dims, block, s, done, k);
  }

  /** The rank 3 kernel: whatever the schedule, every cell has been visited. */
  method Dispatch3D(policy: Policy, data: array<int>, mem: array<int>, dims: Shape, block: Shape, schedule: seq<nat>)
    requires data != mem && Fits(dims, block, Snap(data, mem)) && |dims| == 3
    requires Covers(schedule, MaxIdx(dims, block)[2])
    modifies data, mem
    ensures Snap(data, mem) == After(policy, dims, block, old(Snap(data, mem)), Range(0, Total(dims, block)))
  {
    ghost var s := Snap(data, mem);
    ghost var w := Width(dims, block);
    var strides, max, blockStride, items := Setup(dims, block);
    assert After(policy, dims, block, s, {}) == s;
    for n := 0 to |schedule|
      invariant Snap(data, mem) == After(policy, dims, block, s, Slabs(schedule[..n], w))
    {
      Slab3D(policy, data, mem, dims, block, strides, max, blockStride, items, schedule[n],
             s, Slabs(schedule[..n], w));
      SlabsSnoc(schedule, n, w);
    }
    assert schedule[..|schedule|] == schedule;
    AllVisited(dims, block, schedule);
  }
}
