/** Where the chunking kernel puts every element.  Chunk memory is a row of blocks;
    cell `p` of it belongs to one block and one element of that block, and `Target`
    is the place in the flat array that cell mirrors, or `None` in the padding.
    `Filled` and `Restored` are the buffers the two copy policies leave behind once
    the cells of `done` have been visited. */
module ChunkMap {
  import opened Layout
  import opened Wrappers

  /** Blocks along each axis: the extent divided by the block size, rounded up. */
  function MaxIdx(dims: Shape, block: Shape): (m: Shape)
    requires |block| == |dims| && Positive(block)
    ensures |m| == |dims|
    ensures Positive(dims) ==> Positive(m)
  {
    var m := seq(|dims|, i requires 0 <= i < |dims| => CeilDiv(dims[i], block[i]));
    assert forall i :: 0 <= i < |dims| && dims[i] >= 1 ==> m[i] >= 1;
    m
  }

  function CeilDiv(d: nat, c: nat): (m: nat)
    requires c >= 1
    ensures d >= 1 ==> m >= 1
  {
    if d % c == 0 then DivExact(d, c); d / c else d / c + 1
  }

  lemma DivExact(d: nat, c: nat)
    requires c >= 1 && d % c == 0
    ensures d >= 1 ==> d / c >= 1
  {
    assert d == c * (d / c);
  }

  /** The fewest blocks that hold an extent: they reach its end, and the last of them
      still begins inside. */
  lemma CeilDivLeast(d: nat, c: nat)
    requires c >= 1
    ensures d <= CeilDiv(d, c) * c
    ensures CeilDiv(d, c) >= 1 ==> (CeilDiv(d, c) - 1) * c < d
  {
    var q, r := d / c, d % c;
    assert d == c * q + r;
    assert q * c == c * q && (q + 1) * c == c * q + c;
    if r == 0 && q >= 1 {
      assert (q - 1) * c == c * q - c;
    }
  }

  /** `m` counts the blocks of the smallest grid that covers the array. */
  ghost predicate SmallestGrid(dims: Shape, block: Shape, m: Shape) {
    && |m| == |block| == |dims|
    && forall i :: 0 <= i < |dims| ==>
         dims[i] <= m[i] * block[i] && (m[i] >= 1 ==> (m[i] - 1) * block[i] < dims[i])
  }

  lemma CountUnique(d: nat, c: nat, m: nat, n: nat)
    requires d <= m * c && (m >= 1 ==> (m - 1) * c < d)
    requires d <= n * c && (n >= 1 ==> (n - 1) * c < d)
    ensures m == n
  {
    if m < n {
      MulMono(c, m, n - 1);
      MulComm(c, m);
      MulComm(c, n - 1);
    } else if n < m {
      MulMono(c, n, m - 1);
      MulComm(c, n);
      MulComm(c, m - 1);
    }
  }

  /** The kernel's grid is the smallest one, and the only smallest one. */
  lemma GridExact(dims: Shape, block: Shape, m: Shape)
    requires |block| == |dims| && Positive(block)
    ensures SmallestGrid(dims, block, m) <==> m == MaxIdx(dims, block)
  {
    forall i | 0 <= i < |dims|
      ensures var n := MaxIdx(dims, block)[i];
              dims[i] <= n * block[i] && (n >= 1 ==> (n - 1) * block[i] < dims[i])
    {
      CeilDivLeast(dims[i], block[i]);
    }
    if SmallestGrid(dims, block, m) {
      forall i | 0 <= i < |dims|
        ensures m[i] == MaxIdx(dims, block)[i]
      {
        CountUnique(dims[i], block[i], m[i], MaxIdx(dims, block)[i]);
      }
    }
  }

  /** No block is all padding: the first element of every block lies in the array. */
  lemma NoBlockIsPadding(dims: Shape, block: Shape, b: seq<nat>)
    requires |block| == |dims| && Positive(block) && InBox(MaxIdx(dims, block), b)
    ensures InBox(dims, At(block, b, Zeros(|block|)))
  {
    forall i | 0 <= i < |dims|
      ensures b[i] * block[i] < dims[i]
    {
      var m := MaxIdx(dims, block)[i];
      CeilDivLeast(dims[i], block[i]);
      MulMono(block[i], b[i], m - 1);
      MulComm(block[i], b[i]);
      MulComm(block[i], m - 1);
    }
  }

  /** The coordinates of element `e` of block `b`. */
  function At(block: Shape, b: seq<nat>, e: seq<nat>): (x: seq<nat>)
    requires |b| == |block| == |e|
    ensures |x| == |block|
  {
    seq(|block|, i requires 0 <= i < |block| => b[i] * block[i] + e[i])
  }

  /** Number of elements in chunk memory, padding included. */
  function Total(dims: Shape, block: Shape): nat
    requires |block| == |dims| && Positive(block)
  {
    Prod(MaxIdx(dims, block)) * Prod(block)
  }

  /** Room for every element of every block of the smallest grid, and no more. */
  ghost predicate PaddedSize(dims: Shape, block: Shape, n: nat) {
    exists m :: SmallestGrid(dims, block, m) && n == Prod(m) * Prod(block)
  }

  lemma TotalIsPaddedSize(dims: Shape, block: Shape)
    requires |block| == |dims| && Positive(block)
    ensures PaddedSize(dims, block, Total(dims, block))
  {
    GridExact(dims, block, MaxIdx(dims, block));
  }

  /** The cell of chunk memory holding element `e` of block `b`. */
  function Cell(dims: Shape, block: Shape, b: seq<nat>, e: seq<nat>): nat
    requires |b| == |dims| == |e| == |block| && Positive(block)
  {
    Flat(MaxIdx(dims, block), b) * Prod(block) + Flat(block, e)
  }

  function BlockOf(dims: Shape, block: Shape, p: nat): (b: seq<nat>)
    requires |block| == |dims| && Positive(block) && p < Total(dims, block)
    ensures InBox(MaxIdx(dims, block), b)
  {
    PartsInBox(dims, block, p);
    Unflat(MaxIdx(dims, block), p / Prod(block))
  }

  function ElemOf(dims: Shape, block: Shape, p: nat): (e: seq<nat>)
    requires |block| == |dims| && Positive(block) && p < Total(dims, block)
    ensures InBox(block, e)
  {
    PartsInBox(dims, block, p);
    Unflat(block, p % Prod(block))
  }

  lemma SplitCell(p: nat, m: nat, k: nat)
    requires p < m * k
    ensures m >= 1 && k >= 1
    ensures p / k < m && p % k < k
    ensures p / k * k + p % k == p
  {
    if k >= 1 {
      DivBelow(p, k, m);
    }
  }

  lemma JoinCell(q: nat, r: nat, m: nat, k: nat)
    requires q < m && r < k
    ensures q * k + r < m * k
    ensures (q * k + r) / k == q && (q * k + r) % k == r
  {
    DivModOfSum(r, k, q);
    assert q * k == k * q && m * k == k * m;
    MulMono(k, q + 1, m);
    assert k * (q + 1) == k * q + k;
  }

  lemma PartsInBox(dims: Shape, block: Shape, p: nat)
    requires |block| == |dims| && Positive(block) && p < Total(dims, block)
    ensures Prod(block) >= 1 && Positive(MaxIdx(dims, block))
    ensures InBox(MaxIdx(dims, block), Unflat(MaxIdx(dims, block), p / Prod(block)))
    ensures InBox(block, Unflat(block, p % Prod(block)))
  {
    SplitCell(p, Prod(MaxIdx(dims, block)), Prod(block));
    ProdPositive(MaxIdx(dims, block));
    FlatUnflat(MaxIdx(dims, block), p / Prod(block));
    FlatUnflat(block, p % Prod(block));
  }

  predicate IsSplit(p: nat, k: nat, q: nat, r: nat) {
    q * k + r == p
  }

  lemma Divide(p: nat, m: nat, k: nat) returns (q: nat, r: nat)
    requires p < m * k
    ensures k >= 1 && q == p / k && r == p % k && q < m && r < k && IsSplit(p, k, q, r)
  {
    SplitCell(p, m, k);
    q, r := p / k, p % k;
  }

  lemma DivideCell(dims: Shape, block: Shape, p: nat) returns (q: nat, r: nat)
    requires |block| == |dims| && Positive(block) && p < Total(dims, block)
    ensures Prod(block) >= 1 && q == p / Prod(block) && r == p % Prod(block)
    ensures q < Prod(MaxIdx(dims, block)) && r < Prod(block) && IsSplit(p, Prod(block), q, r)
  {
    q, r := Divide(p, Prod(MaxIdx(dims, block)), Prod(block));
  }

  lemma CellPosition(dims: Shape, block: Shape, p: nat)
    requires |block| == |dims| && Positive(block) && p < Total(dims, block)
    ensures IsSplit(p, Prod(block), Flat(MaxIdx(dims, block), BlockOf(dims, block, p)),
                    Flat(block, ElemOf(dims, block, p)))
  {
    PartsInBox(dims, block, p);
    var q, r := DivideCell(dims, block, p);
    FlatUnflat(MaxIdx(dims, block), q);
    FlatUnflat(block, r);
  }

  /** Quotient and remainder of a cell number decode to a block and an element. */
  lemma CellParts(dims: Shape, block: Shape, p: nat)
    requires |block| == |dims| && Positive(block) && p < Total(dims, block)
    ensures Cell(dims, block, BlockOf(dims, block, p), ElemOf(dims, block, p)) == p
  {
    CellPosition(dims, block, p);
  }

  /** Every block and element has a cell of its own, and decoding finds them again. */
  lemma CellInverse(dims: Shape, block: Shape, b: seq<nat>, e: seq<nat>)
    requires |block| == |dims| && Positive(block)
    requires InBox(MaxIdx(dims, block), b) && InBox(block, e)
    ensures Cell(dims, block, b, e) < Total(dims, block)
    ensures BlockOf(dims, block, Cell(dims, block, b, e)) == b
    ensures ElemOf(dims, block, Cell(dims, block, b, e)) == e
  {
    var m := MaxIdx(dims, block);
    FlatInRange(m, b);
    FlatInRange(block, e);
    JoinCell(Flat(m, b), Flat(block, e), Prod(m), Prod(block));
    UnflatFlat(m, b);
    UnflatFlat(block, e);
  }

  /** The flat array position cell `p` mirrors; `None` for padding. */
  function Target(dims: Shape, block: Shape, p: nat): Option<nat>
    requires |block| == |dims| && Positive(block) && p < Total(dims, block)
  {
    var x := At(block, BlockOf(dims, block, p), ElemOf(dims, block, p));
    if InBox(dims, x) then Some(Flat(dims, x)) else None
  }

  /** The block each coordinate falls in. */
  function Quot(x: seq<nat>, block: Shape): (b: seq<nat>)
    requires |x| == |block| && Positive(block)
    ensures |b| == |x|
  {
    seq(|x|, i requires 0 <= i < |x| => x[i] / block[i])
  }

  /** The place of each coordinate within its block. */
  function Rem(x: seq<nat>, block: Shape): (e: seq<nat>)
    requires |x| == |block| && Positive(block)
    ensures |e| == |x|
  {
    seq(|x|, i requires 0 <= i < |x| => x[i] % block[i])
  }

  lemma CeilDivReaches(d: nat, c: nat)
    requires c >= 1
    ensures d <= c * CeilDiv(d, c)
  {
    assert d == c * (d / c) + d % c;
    Distrib(c, d / c, 1);
  }

  lemma QuotRemSum(x: nat, c: nat)
    requires c >= 1
    ensures x / c * c + x % c == x
  {
    assert x == c * (x / c) + x % c;
  }

  lemma CeilDivCovers(x: nat, d: nat, c: nat)
    requires c >= 1 && x < d
    ensures x / c < CeilDiv(d, c)
    ensures x / c * c + x % c == x
  {
    CeilDivReaches(d, c);
    DivBelow(x, c, CeilDiv(d, c));
    QuotRemSum(x, c);
  }

  lemma QuotRemInverse(dims: Shape, block: Shape, x: seq<nat>)
    requires |block| == |dims| && Positive(block) && InBox(dims, x)
    ensures InBox(MaxIdx(dims, block), Quot(x, block)) && InBox(block, Rem(x, block))
    ensures At(block, Quot(x, block), Rem(x, block)) == x
  {
    forall i | 0 <= i < |dims|
      ensures Quot(x, block)[i] < MaxIdx(dims, block)[i]
      ensures At(block, Quot(x, block), Rem(x, block))[i] == x[i]
    {
      CeilDivCovers(x[i], dims[i], block[i]);
    }
  }

  lemma QuotRemOfAt(block: Shape, b: seq<nat>, e: seq<nat>)
    requires |b| == |block| && InBox(block, e)
    ensures Positive(block)
    ensures Quot(At(block, b, e), block) == b && Rem(At(block, b, e), block) == e
  {
    forall i | 0 <= i < |block|
      ensures At(block, b, e)[i] / block[i] == b[i] && At(block, b, e)[i] % block[i] == e[i]
    {
      DivModOfSum(e[i], block[i], b[i]);
      assert b[i] * block[i] == block[i] * b[i];
    }
  }

  /** The cell that mirrors array position `o`. */
  function Home(dims: Shape, block: Shape, o: nat): (p: nat)
    requires |block| == |dims| && Positive(block) && o < Prod(dims)
  {
    ProdPositive(dims);
    Cell(dims, block, Quot(Unflat(dims, o), block), Rem(Unflat(dims, o), block))
  }

  /** Every element of the array has a cell, and that cell mirrors it. */
  lemma TargetOfHome(dims: Shape, block: Shape, o: nat)
    requires |block| == |dims| && Positive(block) && o < Prod(dims)
    ensures Home(dims, block, o) < Total(dims, block)
    ensures Target(dims, block, Home(dims, block, o)) == Some(o)
  {
    ProdPositive(dims);
    FlatUnflat(dims, o);
    var x := Unflat(dims, o);
    QuotRemInverse(dims, block, x);
    CellInverse(dims, block, Quot(x, block), Rem(x, block));
  }

  /** A cell that is not padding is the home of the position it mirrors: no two
      cells mirror the same element. */
  lemma HomeOfTarget(dims: Shape, block: Shape, p: nat)
    requires |block| == |dims| && Positive(block) && p < Total(dims, block)
    requires Target(dims, block, p).Some?
    ensures Target(dims, block, p).value < Prod(dims)
    ensures Home(dims, block, Target(dims, block, p).value) == p
  {
    var b, e := BlockOf(dims, block, p), ElemOf(dims, block, p);
    FlatInRange(dims, At(block, b, e));
    UnflatFlat(dims, At(block, b, e));
    QuotRemOfAt(block, b, e);
    CellParts(dims, block, p);
  }

  // --------------------------------------------- what the two policies leave

  /** Contents of cell `p` after copying to blocks. */
  function CellValue(dims: Shape, block: Shape, data: seq<int>, p: nat): int
    requires |block| == |dims| && Positive(block) && p < Total(dims, block)
    requires |data| == Prod(dims)
  {
    match Target(dims, block, p)
    case Some(o) => HomeOfTarget(dims, block, p); data[o]
    case None => 0
  }

  /** Chunk memory once the cells of `done` have been copied to. */
  function Filled(dims: Shape, block: Shape, data: seq<int>, mem: seq<int>, done: set<nat>): (r: seq<int>)
    requires |block| == |dims| && Positive(block)
    requires |data| == Prod(dims) && |mem| == Total(dims, block)
    ensures |r| == |mem|
  {
    seq(|mem|, p requires 0 <= p < |mem| => if p in done then CellValue(dims, block, data, p) else mem[p])
  }

  /** The array once the cells of `done` have been copied from. */
  function Restored(dims: Shape, block: Shape, data: seq<int>, mem: seq<int>, done: set<nat>): (r: seq<int>)
    requires |block| == |dims| && Positive(block)
    requires |data| == Prod(dims) && |mem| == Total(dims, block)
    ensures |r| == |data|
  {
    seq(|data|, o requires 0 <= o < |data| =>
      TargetOfHome(dims, block, o);
      if Home(dims, block, o) in done then mem[Home(dims, block, o)] else data[o])
  }

  function Range(lo: nat, hi: nat): (s: set<nat>)
    ensures forall p :: p in s <==> lo <= p < hi
  {
    if hi <= lo then {} else Range(lo, hi - 1) + {hi - 1}
  }

  lemma FilledStep(dims: Shape, block: Shape, data: seq<int>, mem: seq<int>, done: set<nat>, p: nat)
    requires |block| == |dims| && Positive(block)
    requires |data| == Prod(dims) && |mem| == Total(dims, block) && p < |mem|
    ensures Filled(dims, block, data, mem, done + {p})
         == Filled(dims, block, data, mem, done)[p := CellValue(dims, block, data, p)]
  {
  }

  lemma RestoredStep(dims: Shape, block: Shape, data: seq<int>, mem: seq<int>, done: set<nat>, p: nat)
    requires |block| == |dims| && Positive(block)
    requires |data| == Prod(dims) && |mem| == Total(dims, block) && p < |mem|
    ensures Target(dims, block, p).Some? ==> Target(dims, block, p).value < |data|
    ensures Restored(dims, block, data, mem, done + {p})
         == match Target(dims, block, p)
            case Some(o) => Restored(dims, block, data, mem, done)[o := mem[p]]
            case None => Restored(dims, block, data, mem, done)
  {
    var t := Target(dims, block, p);
    if t.Some? {
      HomeOfTarget(dims, block, p);
    }
    forall o | 0 <= o < |data|
      ensures Home(dims, block, o) == p ==> t == Some(o)
    {
      TargetOfHome(dims, block, o);
    }
  }

  /** Cell by cell: element `e` of block `b` is the array element at
      `b * block + e`, or 0 where that lies outside the array. */
  lemma FilledAt(dims: Shape, block: Shape, data: seq<int>, mem: seq<int>, b: seq<nat>, e: seq<nat>)
    requires |block| == |dims| && Positive(block)
    requires |data| == Prod(dims) && |mem| == Total(dims, block)
    requires InBox(MaxIdx(dims, block), b) && InBox(block, e)
    ensures var x, c := At(block, b, e), Cell(dims, block, b, e);
            var chunks := Filled(dims, block, data, mem, Range(0, |mem|));
            && c < |mem|
            && (InBox(dims, x) ==> Flat(dims, x) < |data| && chunks[c] == data[Flat(dims, x)])
            && (!InBox(dims, x) ==> chunks[c] == 0)
  {
    CellInverse(dims, block, b, e);
    if InBox(dims, At(block, b, e)) {
      FlatInRange(dims, At(block, b, e));
    }
  }

  /** Restoring from chunk memory rebuilds every element, whatever chunk memory
      (`junk`) and the destination (`dest`) held before, divisible or not. */
  lemma ChunkRestoreRoundTrip(dims: Shape, block: Shape, data: seq<int>, junk: seq<int>, dest: seq<int>)
    requires |block| == |dims| && Positive(block)
    requires |data| == |dest| == Prod(dims) && |junk| == Total(dims, block)
    ensures var all := Range(0, Total(dims, block));
            Restored(dims, block, dest, Filled(dims, block, data, junk, all), all) == data
  {
    forall o | 0 <= o < |data|
      ensures Home(dims, block, o) < |junk|
      ensures CellValue(dims, block, data, Home(dims, block, o)) == data[o]
    {
      TargetOfHome(dims, block, o);
    }
  }

  // ------------------------------------------------ threads in any order

  datatype Policy = ToBlocks | FromBlocks

  datatype Buffers = Buffers(data: seq<int>, mem: seq<int>)

  ghost predicate Fits(dims: Shape, block: Shape, s: Buffers) {
    |block| == |dims| && Positive(block) && |s.data| == Prod(dims) && |s.mem| == Total(dims, block)
  }

  /** Both buffers once the cells of `done` have been visited under a policy. */
  function After(policy: Policy, dims: Shape, block: Shape, s: Buffers, done: set<nat>): (r: Buffers)
    requires |block| == |dims| && Positive(block) && |s.data| == Prod(dims) && |s.mem| == Total(dims, block)
    ensures Fits(dims, block, r)
  {
    match policy
    case ToBlocks => s.(mem := Filled(dims, block, s.data, s.mem, done))
    case FromBlocks => s.(data := Restored(dims, block, s.data, s.mem, done))
  }

  /** One visit of one cell: the policy's in-bounds copy, or its padding action. */
  function Visit(policy: Policy, dims: Shape, block: Shape, s: Buffers, p: nat): (r: Buffers)
    requires |block| == |dims| && Positive(block) && |s.data| == Prod(dims) && |s.mem| == Total(dims, block)
    requires p < |s.mem|
    ensures Fits(dims, block, r)
  {
    match (policy, Target(dims, block, p))
    case (ToBlocks, Some(o)) => HomeOfTarget(dims, block, p); s.(mem := s.mem[p := s.data[o]])
    case (ToBlocks, None) => s.(mem := s.mem[p := 0])
    case (FromBlocks, Some(o)) => HomeOfTarget(dims, block, p); s.(data := s.data[o := s.mem[p]])
    case (FromBlocks, None) => s
  }

  lemma VisitStep(policy: Policy, dims: Shape, block: Shape, s: Buffers, done: set<nat>, p: nat)
    requires Fits(dims, block, s) && p < |s.mem|
    ensures Visit(policy, dims, block, After(policy, dims, block, s, done), p)
         == After(policy, dims, block, s, done + {p})
  {
    match policy
    case ToBlocks => FilledStep(dims, block, s.data, s.mem, done, p);
    case FromBlocks => RestoredStep(dims, block, s.data, s.mem, done, p);
  }

  function VisitAll(policy: Policy, dims: Shape, block: Shape, s: Buffers, order: seq<nat>): (r: Buffers)
    requires |block| == |dims| && Positive(block) && |s.data| == Prod(dims) && |s.mem| == Total(dims, block)
    requires forall i :: 0 <= i < |order| ==> order[i] < |s.mem|
    ensures Fits(dims, block, r)
  {
    if order == [] then s
    else Visit(policy, dims, block, VisitAll(policy, dims, block, s, order[..|order| - 1]), order[|order| - 1])
  }

  function Visited(order: seq<nat>): set<nat> {
    set p | p in order
  }

  lemma VisitedSnoc(order: seq<nat>)
    requires order != []
    ensures Visited(order) == Visited(order[..|order| - 1]) + {order[|order| - 1]}
  {
    assert order == order[..|order| - 1] + [order[|order| - 1]];
  }

  /** However the threads interleave their cell visits, the buffers depend only on
      which cells were visited: the parallel loop has one outcome. */
  lemma {:induction false} AnyInterleaving(policy: Policy, dims: Shape, block: Shape, s: Buffers, order: seq<nat>)
    requires Fits(dims, block, s)
    requires forall i :: 0 <= i < |order| ==> order[i] < |s.mem|
    ensures VisitAll(policy, dims, block, s, order) == After(policy, dims, block, s, Visited(order))
  {
    if order == [] {
      assert After(policy, dims, block, s, {}) == s;
    } else {
      var init := order[..|order| - 1];
      AnyInterleaving(policy, dims, block, s, init);
      VisitedSnoc(order);
      VisitStep(policy, dims, block, s, Visited(init), order[|order| - 1]);
    }
  }
}
