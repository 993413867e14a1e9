/** What the rank 1, 2 and 3 kernels share: nested loops over precomputed strides.
    The outermost block loop is the parallel one; its iterations are taken in the
    order of a `schedule`, which may be any order that covers them all. */
module NestedLoops {
  import opened Layout
  import opened ChunkMap
  import opened Kernel
  import opened Scans

  ghost predicate Covers(schedule: seq<nat>, n: nat) {
    && (forall i :: 0 <= i < |schedule| ==> schedule[i] < n)
    && forall k: nat :: k < n ==> k in schedule
  }

  /** The cells of the outermost iterations in `ks`, `width` cells each. */
  function Slabs(ks: seq<nat>, width: nat): set<nat> {
    if ks == [] then {} else Slabs(ks[..|ks| - 1], width) + Slab(ks[|ks| - 1], width)
  }

  function Slab(k: nat, width: nat): set<nat> {
    Range(k * width, (k + 1) * width)
  }

  lemma DivRange(p: nat, w: nat, k: nat)
    requires w > 0
    ensures k * w <= p < (k + 1) * w <==> p / w == k
  {
    var q, r := p / w, p % w;
    assert p == w * q + r;
    assert w * q == q * w && w * k == k * w;
    if q < k {
      MulMono(w, q + 1, k);
      Distrib(w, q, 1);
    } else if q > k {
      MulMono(w, k + 1, q);
      Distrib(w, k, 1);
    }
  }

  /** A cell belongs to one iteration of the parallel loop and to no other. */
  lemma CellOwner(p: nat, width: nat, k: nat)
    requires width > 0
    ensures p in Slab(k, width) <==> k == p / width
  {
    DivRange(p, width, k);
  }

  lemma {:induction false} InSlabs(ks: seq<nat>, width: nat, p: nat)
    ensures p in Slabs(ks, width) <==> width > 0 && p / width in ks
  {
    if ks != [] {
      var init, k := ks[..|ks| - 1], ks[|ks| - 1];
      InSlabs(init, width, p);
      assert ks == init + [k];
      if width > 0 {
        DivRange(p, width, k);
      }
    }
  }

  lemma DivBound(p: nat, w: nat, n: nat)
    requires w > 0
    ensures p / w < n <==> p < n * w
  {
    DivRange(p, w, p / w);
    if p / w < n {
      MulMono(w, p / w + 1, n);
      Distrib(w, p / w, 1);
    } else {
      MulMono(w, n, p / w);
    }
  }

  lemma AllSlabs(ks: seq<nat>, n: nat, width: nat)
    requires Covers(ks, n)
    ensures Slabs(ks, width) == Range(0, n * width)
  {
    forall p: nat
      ensures p in Slabs(ks, width) <==> p < n * width
    {
      InSlabs(ks, width, p);
      if width > 0 {
        DivBound(p, width, n);
      }
    }
  }

  lemma SlabsSnoc(ks: seq<nat>, n: nat, width: nat)
    requires n < |ks|
    ensures Slabs(ks[..n + 1], width) == Slabs(ks[..n], width) + Slab(ks[n], width)
  {
    assert ks[..n + 1][..n] == ks[..n];
  }

  /** Cells per iteration of the outermost loop. */
  function Width(dims: Shape, block: Shape): nat
    requires |block| == |dims| >= 1 && Positive(block)
  {
    Prod(MaxIdx(dims, block)[..|dims| - 1]) * Prod(block)
  }

  lemma WidthFacts(dims: Shape, block: Shape, k: nat)
    requires |block| == |dims| >= 1 && Positive(block)
    ensures var max := MaxIdx(dims, block);
            && max[|dims| - 1] * Width(dims, block) == Total(dims, block)
            && k * Prod(max[..|dims| - 1]) * Prod(block) == k * Width(dims, block)
  {
    var max := MaxIdx(dims, block);
    var init, last := max[..|dims| - 1], max[|dims| - 1];
    assert max == init + [last];
    ProdSnoc(init, last);
    MulAssoc(last, Prod(init), Prod(block));
    MulAssoc(k, Prod(init), Prod(block));
  }

  lemma AllVisited(dims: Shape, block: Shape, schedule: seq<nat>)
    requires |block| == |dims| >= 1 && Positive(block)
    requires Covers(schedule, MaxIdx(dims, block)[|dims| - 1])
    ensures Slabs(schedule, Width(dims, block)) == Range(0, Total(dims, block))
  {
    WidthFacts(dims, block, 0);
    AllSlabs(schedule, MaxIdx(dims, block)[|dims| - 1], Width(dims, block));
  }

  // ---------------------------------------- counters of nested loops

  lemma FlatCons(d: Shape, x: nat, rest: seq<nat>)
    requires |d| == |rest| + 1
    ensures Flat(d, [x] + rest) == x + d[0] * Flat(d[1..], rest)
  {
    assert ([x] + rest)[1..] == rest;
  }

  lemma FlatBump(d: Shape, idx: seq<nat>)
    requires |d| == |idx| >= 1
    ensures Flat(d, [idx[0] + 1] + idx[1..]) == Flat(d, idx) + 1
  {
    assert ([idx[0] + 1] + idx[1..])[1..] == idx[1..];
  }

  /** A full innermost counter is the next one up advanced by one. */
  lemma FlatCarry(d: Shape, rest: seq<nat>)
    requires |d| == |rest| + 1 >= 2
    ensures Flat(d, [d[0]] + rest) == Flat(d, [0] + ([rest[0] + 1] + rest[1..]))
  {
    var up := [rest[0] + 1] + rest[1..];
    FlatBump(d[1..], rest);
    FlatCons(d, d[0], rest);
    FlatCons(d, 0, up);
    MulSucc(d[0], Flat(d[1..], rest), Flat(d[1..], up));
  }

  lemma {:induction false} FlatFull(d: Shape, n: nat)
    requires |d| >= 1
    ensures Flat(d, Zeros(|d| - 1) + [n]) == n * Prod(d[..|d| - 1])
  {
    var init := d[..|d| - 1];
    assert d == init + [d[|d| - 1]];
    FlatSnoc(init, Zeros(|init|), d[|d| - 1], n);
    FlatZeros(init);
  }

  // ------------------------------------------------- visiting cells

  /** The cells from `lo` up to `at` have been added to `done`. */
  ghost predicate Upto(policy: Policy, now: Buffers, dims: Shape, block: Shape, s: Buffers, done: set<nat>,
                       lo: nat, at: nat)
  {
    Fits(dims, block, s) && lo <= at && now == After(policy, dims, block, s, done + Range(lo, at))
  }

  lemma UptoStart(policy: Policy, now: Buffers, dims: Shape, block: Shape, s: Buffers, done: set<nat>, lo: nat)
    requires Fits(dims, block, s) && now == After(policy, dims, block, s, done)
    ensures Upto(policy, now, dims, block, s, done, lo, lo)
  {
    assert done + Range(lo, lo) == done;
  }

  lemma UptoMore(policy: Policy, now: Buffers, dims: Shape, block: Shape, s: Buffers, done: set<nat>,
                 lo: nat, mid: nat, hi: nat)
    requires lo <= mid && Upto(policy, now, dims, block, s, done + Range(lo, mid), mid, hi)
    ensures Upto(policy, now, dims, block, s, done, lo, hi)
  {
    assert done + Range(lo, mid) + Range(mid, hi) == done + Range(lo, hi);
  }

  /** Visits element `e` of block `b`, given the outcome of the caller's bounds
      test and the offset the caller computed. */
  method VisitElement(policy: Policy, data: array<int>, mem: array<int>, inside: bool, offset: nat, at: nat,
                      ghost dims: Shape, ghost block: Shape, ghost b: seq<nat>, ghost e: seq<nat>,
                      ghost s: Buffers, ghost done: set<nat>, ghost lo: nat)
    requires data != mem && Upto(policy, Snap(data, mem), dims, block, s, done, lo, at)
    requires InBox(MaxIdx(dims, block), b) && InBox(block, e)
    requires at == Cell(dims, block, b, e)
    requires inside <==> InBox(dims, At(block, b, e))
    requires inside ==> offset == Flat(dims, At(block, b, e))
    modifies data, mem
    ensures Upto(policy, Snap(data, mem), dims, block, s, done, lo, at + 1)
  {
    CellTarget(dims, block, b, e);
    VisitStep(policy, dims, block, s, done + Range(lo, at), at);
    RangeSnoc(done, lo, at - lo);
    if inside {
      CopyInBounds(policy, data, mem, at, offset, dims, block);
    } else {
      CopyOutOfBounds(policy, data, mem, at, dims, block);
    }
  }

  /** Shared set-up: the strides of the array and of the grid of blocks. */
  method Setup(dims: Shape, block: Shape)
    returns (strides: seq<nat>, max: Shape, blockStride: seq<nat>, items: nat)
    requires |block| == |dims| && Positive(block)
    ensures strides == Strides(dims) && max == MaxIdx(dims, block)
    ensures blockStride == Strides(max) && items == Prod(block)
  {
    strides := ExclusiveScan(dims);
    max, items := BlockCounts(dims, block);
    blockStride := ExclusiveScan(max);
  }
}
