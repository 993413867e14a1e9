/** When chunking needs no copy: the two tests that choose the fast path, and the
    proof that they choose it exactly when the kernel would be the identity. */
module Contiguity {
  import opened Layout
  import opened ChunkMap
  import opened Wrappers

  /** Beyond the first axis the chunk does not span, it has extent 1. */
  predicate Contiguous(dims: Shape, chunk: Shape) {
    forall i, j :: 0 <= i < j < |dims| && j < |chunk| && dims[i] != chunk[i] ==> chunk[j] == 1
  }

  predicate ValidDims(dims: Shape, chunk: Shape)
    requires Positive(chunk)
  {
    |dims| == |chunk| && forall i :: 0 <= i < |dims| ==> dims[i] % chunk[i] == 0
  }

  method CheckContiguous(dims: Shape, chunk: Shape) returns (ok: bool)
    ensures ok == Contiguous(dims, chunk)
    ensures ok <==> forall i, j :: 0 <= i < j < |dims| && j < |chunk| && dims[i] != chunk[i] ==> chunk[j] == 1
  {
    var mismatch := false;
    ghost var first := 0;
    var n := if |dims| < |chunk| then |dims| else |chunk|;
    for i := 0 to n
      invariant !mismatch ==> forall k :: 0 <= k < i ==> dims[k] == chunk[k]
      invariant mismatch ==>
        && first < i && dims[first] != chunk[first]
        && (forall k :: 0 <= k < first ==> dims[k] == chunk[k])
        && (forall k :: first < k < i ==> chunk[k] == 1)
    {
      if mismatch {
        if chunk[i] != 1 {
          return false;
        }
      } else {
        mismatch := dims[i] != chunk[i];
        first := i;
      }
    }
    return true;
  }

  method CheckValidDims(dims: Shape, chunk: Shape) returns (ok: bool)
    requires Positive(chunk)
    ensures ok == ValidDims(dims, chunk)
    ensures ok <==> |dims| == |chunk| && forall i :: 0 <= i < |dims| ==> dims[i] % chunk[i] == 0
  {
    if |dims| != |chunk| {
      return false;
    }
    ok := true;
    for i := 0 to |dims|
      invariant ok <==> forall k :: 0 <= k < i ==> dims[k] % chunk[k] == 0
    {
      ok := ok && dims[i] % chunk[i] == 0;
    }
  }

  // -------------------------------------------- the fast path is the identity

  lemma DivisibleAxis(d: nat, c: nat, b: nat, e: nat)
    requires c >= 1 && d % c == 0 && b < CeilDiv(d, c) && e < c
    ensures b * c + e < d == CeilDiv(d, c) * c
  {
    assert d == c * (d / c);
    MulMono(c, b + 1, d / c);
    Distrib(c, b, 1);
    assert b * c == c * b && d / c * c == c * (d / c);
  }

  lemma DivisibleExtent(d: nat, c: nat)
    requires c >= 1 && d % c == 0
    ensures d == CeilDiv(d, c) * c
  {
    assert d == c * (d / c);
  }

  lemma DivisibleInBox(dims: Shape, chunk: Shape, b: seq<nat>, e: seq<nat>)
    requires Positive(chunk) && ValidDims(dims, chunk)
    requires InBox(MaxIdx(dims, chunk), b) && InBox(chunk, e)
    ensures InBox(dims, At(chunk, b, e))
  {
    forall i | 0 <= i < |dims|
      ensures At(chunk, b, e)[i] < dims[i]
    {
      DivisibleAxis(dims[i], chunk[i], b[i], e[i]);
    }
  }

  lemma {:induction false} UnitTail(chunk: Shape, e: seq<nat>)
    requires InBox(chunk, e) && forall i :: 0 <= i < |chunk| ==> chunk[i] == 1
    ensures Prod(chunk) == 1 && Flat(chunk, e) == 0
  {
    if chunk != [] {
      UnitTail(chunk[1..], e[1..]);
    }
  }

  lemma UnitBlocks(dims: Shape, chunk: Shape, b: seq<nat>, e: seq<nat>)
    requires |dims| == |chunk| == |b| && InBox(chunk, e) && forall i :: 0 <= i < |chunk| ==> chunk[i] == 1
    ensures Positive(chunk) && At(chunk, b, e) == b && MaxIdx(dims, chunk) == dims
  {
  }

  /** The arithmetic of an axis the chunk spans. */
  lemma SpanningAxis(d: nat, e: nat, g: nat, q: nat, k: nat, f: nat)
    requires g == q * k + f
    ensures 0 * d + e + d * g == (0 + 1 * q) * (d * k) + (e + d * f)
  {
    Distrib(d, q * k, f);
    MulRotate(d, q, k);
  }

  /** The arithmetic of the axis the chunk splits, all later chunk extents being 1. */
  lemma SplitAxis(c: nat, m: nat, b: nat, e: nat, g: nat)
    ensures b * c + e + m * c * g == (b + m * g) * (c * 1) + (e + c * 0)
  {
    assert m * c * g == m * g * c;
    assert (b + m * g) * c == b * c + m * g * c;
  }

  lemma Tails(dims: Shape, chunk: Shape, b: seq<nat>, e: seq<nat>)
    requires |dims| == |chunk| == |b| == |e| >= 1 && Positive(chunk)
    ensures MaxIdx(dims, chunk)[1..] == MaxIdx(dims[1..], chunk[1..])
    ensures At(chunk, b, e)[1..] == At(chunk[1..], b[1..], e[1..])
  {
  }

  lemma FlatHead(dims: Shape, idx: seq<nat>)
    requires |dims| == |idx| >= 1
    ensures Flat(dims, idx) == idx[0] + dims[0] * Flat(dims[1..], idx[1..])
    ensures Prod(dims) == dims[0] * Prod(dims[1..])
  {
  }

  /** Both sides of the claim, in terms of the first axis and the rest. */
  lemma Heads(dims: Shape, chunk: Shape, b: seq<nat>, e: seq<nat>, m: nat, g: nat, q: nat, f: nat)
    requires |dims| == |chunk| == |b| == |e| >= 1 && Positive(chunk)
    requires m == CeilDiv(dims[0], chunk[0])
    requires g == Flat(dims[1..], At(chunk[1..], b[1..], e[1..]))
    requires q == Flat(MaxIdx(dims[1..], chunk[1..]), b[1..]) && f == Flat(chunk[1..], e[1..])
    ensures Flat(dims, At(chunk, b, e)) == b[0] * chunk[0] + e[0] + dims[0] * g
    ensures Cell(dims, chunk, b, e) == (b[0] + m * q) * (chunk[0] * Prod(chunk[1..])) + (e[0] + chunk[0] * f)
  {
    Tails(dims, chunk, b, e);
    FlatHead(dims, At(chunk, b, e));
    FlatHead(MaxIdx(dims, chunk), b);
    FlatHead(chunk, e);
  }

  lemma SpanningCase(dims: Shape, chunk: Shape, b: seq<nat>, e: seq<nat>)
    requires |dims| == |chunk| >= 1 && Positive(chunk) && dims[0] == chunk[0]
    requires InBox(MaxIdx(dims, chunk), b) && InBox(chunk, e)
    requires Flat(dims[1..], At(chunk[1..], b[1..], e[1..])) == Cell(dims[1..], chunk[1..], b[1..], e[1..])
    ensures Flat(dims, At(chunk, b, e)) == Cell(dims, chunk, b, e)
  {
    assert dims[0] / chunk[0] == 1;
    assert CeilDiv(dims[0], chunk[0]) == 1 && b[0] == 0;
    var g := Flat(dims[1..], At(chunk[1..], b[1..], e[1..]));
    var q, f := Flat(MaxIdx(dims[1..], chunk[1..]), b[1..]), Flat(chunk[1..], e[1..]);
    Heads(dims, chunk, b, e, 1, g, q, f);
    SpanningAxis(dims[0], e[0], g, q, Prod(chunk[1..]), f);
  }

  lemma SplitCase(dims: Shape, chunk: Shape, b: seq<nat>, e: seq<nat>)
    requires |dims| == |chunk| >= 1 && Positive(chunk) && dims[0] % chunk[0] == 0
    requires forall i :: 1 <= i < |chunk| ==> chunk[i] == 1
    requires InBox(MaxIdx(dims, chunk), b) && InBox(chunk, e)
    ensures Flat(dims, At(chunk, b, e)) == Cell(dims, chunk, b, e)
  {
    UnitTail(chunk[1..], e[1..]);
    UnitBlocks(dims[1..], chunk[1..], b[1..], e[1..]);
    DivisibleAxis(dims[0], chunk[0], b[0], e[0]);
    var m, g := CeilDiv(dims[0], chunk[0]), Flat(dims[1..], b[1..]);
    Heads(dims, chunk, b, e, m, g, g, 0);
    SplitAxis(chunk[0], m, b[0], e[0], g);
  }

  /** On a contiguous, divisible grid the array position of an element is its cell. */
  lemma {:induction false} ContiguousFlat(dims: Shape, chunk: Shape, b: seq<nat>, e: seq<nat>)
    requires Positive(chunk) && ValidDims(dims, chunk) && Contiguous(dims, chunk)
    requires InBox(MaxIdx(dims, chunk), b) && InBox(chunk, e)
    ensures Flat(dims, At(chunk, b, e)) == Cell(dims, chunk, b, e)
  {
    if dims != [] {
      if dims[0] == chunk[0] {
        Tails(dims, chunk, b, e);
        ContiguousTail(dims, chunk);
        ContiguousFlat(dims[1..], chunk[1..], b[1..], e[1..]);
        SpanningCase(dims, chunk, b, e);
      } else {
        SplitCase(dims, chunk, b, e);
      }
    }
  }

  lemma ContiguousTail(dims: Shape, chunk: Shape)
    requires Positive(chunk) && |dims| == |chunk| >= 1 && ValidDims(dims, chunk) && Contiguous(dims, chunk)
    ensures Positive(chunk[1..]) && ValidDims(dims[1..], chunk[1..]) && Contiguous(dims[1..], chunk[1..])
  {
    forall i, j | 0 <= i < j < |dims[1..]| && dims[1..][i] != chunk[1..][i]
      ensures chunk[1..][j] == 1
    {
      assert dims[i + 1] != chunk[i + 1];
    }
  }

  lemma {:induction false} DivisibleTotal(dims: Shape, chunk: Shape)
    requires Positive(chunk) && ValidDims(dims, chunk)
    ensures Total(dims, chunk) == Prod(dims)
  {
    var max := MaxIdx(dims, chunk);
    if dims != [] {
      DivisibleTotal(dims[1..], chunk[1..]);
      assert max[1..] == MaxIdx(dims[1..], chunk[1..]);
      DivisibleExtent(dims[0], chunk[0]);
      TotalAxis(dims[0], max[0], chunk[0], Prod(max[1..]), Prod(chunk[1..]));
    }
  }

  lemma TotalAxis(d: nat, m: nat, c: nat, p: nat, k: nat)
    requires d == m * c
    ensures m * p * (c * k) == d * (p * k)
  {
    assert m * p * (c * k) == m * c * (p * k);
  }

  ghost predicate KernelIsIdentity(dims: Shape, chunk: Shape)
    requires |chunk| == |dims| && Positive(chunk)
  {
    forall p :: 0 <= p < Total(dims, chunk) ==> Target(dims, chunk, p) == Some(p)
  }

  lemma FastPathIsIdentity(dims: Shape, chunk: Shape)
    requires Positive(chunk) && ValidDims(dims, chunk) && Contiguous(dims, chunk)
    ensures KernelIsIdentity(dims, chunk)
  {
    forall p | 0 <= p < Total(dims, chunk)
      ensures Target(dims, chunk, p) == Some(p)
    {
      var b, e := BlockOf(dims, chunk, p), ElemOf(dims, chunk, p);
      DivisibleInBox(dims, chunk, b, e);
      ContiguousFlat(dims, chunk, b, e);
      CellParts(dims, chunk, p);
    }
  }

  // ---------------------------------------------- and only there

  lemma {:induction false} FlatUnit(dims: Shape, j: nat)
    requires j < |dims|
    ensures Flat(dims, Unit(|dims|, j)) == Prod(dims[..j])
  {
    if j == 0 {
      assert Unit(|dims|, 0)[1..] == Zeros(|dims[1..]|);
      FlatZeros(dims[1..]);
    } else {
      assert Unit(|dims|, j)[1..] == Unit(|dims[1..]|, j - 1);
      assert dims[..j][1..] == dims[1..][..j - 1];
      FlatUnit(dims[1..], j - 1);
    }
  }

  lemma MulMonoBoth(a: nat, b: nat, x: nat, y: nat)
    requires 1 <= a <= b && 1 <= x <= y
    ensures a * x <= b * y
    ensures a < b || x < y ==> a * x < b * y
  {
    MulMono(a, x, y);
    MulComm(a, y);
    MulComm(b, y);
    MulMono(y, a, b);
    if a < b {
      MulMono(y, a + 1, b);
      Distrib(y, a, 1);
    } else if x < y {
      MulMono(a, x + 1, y);
      Distrib(a, x, 1);
    }
  }

  lemma {:induction false} ProdLess(a: Shape, b: Shape)
    requires |a| == |b| && Positive(a) && forall i :: 0 <= i < |a| ==> a[i] <= b[i]
    ensures Prod(a) <= Prod(b)
    ensures (exists i :: 0 <= i < |a| && a[i] < b[i]) ==> Prod(a) < Prod(b)
  {
    if a != [] {
      ProdLess(a[1..], b[1..]);
      ProdPositive(a[1..]);
      MulMonoBoth(a[0], b[0], Prod(a[1..]), Prod(b[1..]));
      if i :| 0 < i < |a| && a[i] < b[i] {
        assert a[1..][i - 1] < b[1..][i - 1];
      }
    }
  }

  lemma PastTheEnd(d: nat, c: nat)
    requires c >= 1 && d % c != 0
    ensures (CeilDiv(d, c) - 1) * c + (c - 1) >= d
  {
    assert d == c * (d / c) + d % c;
    assert c * (d / c) == d / c * c;
  }

  /** A chunk size that leaves a remainder leaves padding. */
  lemma RemainderPads(dims: Shape, chunk: Shape, i: nat)
    requires |chunk| == |dims| && Positive(chunk) && Positive(dims)
    requires i < |dims| && dims[i] % chunk[i] != 0
    ensures !KernelIsIdentity(dims, chunk)
  {
    var max := MaxIdx(dims, chunk);
    var b := Zeros(|dims|)[i := max[i] - 1];
    var e := Zeros(|dims|)[i := chunk[i] - 1];
    assert InBox(max, b) && InBox(chunk, e);
    CellInverse(dims, chunk, b, e);
    PastTheEnd(dims[i], chunk[i]);
    assert At(chunk, b, e)[i] >= dims[i];
    assert Target(dims, chunk, Cell(dims, chunk, b, e)) == None;
  }

  /** A chunk that is shorter than the array along one axis and longer than 1 along
      a later one is not a run of consecutive elements. */
  lemma GapMoves(dims: Shape, chunk: Shape, i: nat, j: nat)
    requires |chunk| == |dims| && Positive(chunk) && Positive(dims)
    requires forall k :: 0 <= k < |dims| ==> dims[k] % chunk[k] == 0
    requires i < j < |dims| && dims[i] != chunk[i] && chunk[j] != 1
    ensures !KernelIsIdentity(dims, chunk)
  {
    var b, e := Zeros(|dims|), Unit(|dims|, j);
    forall k | 0 <= k < |dims|
      ensures chunk[k] <= dims[k]
    {
      DivisibleAxis(dims[k], chunk[k], 0, chunk[k] - 1);
    }
    CellInverse(dims, chunk, b, e);
    FlatZeros(MaxIdx(dims, chunk));
    FlatUnit(chunk, j);
    FlatUnit(dims, j);
    assert At(chunk, b, e) == e;
    assert chunk[..j][i] < dims[..j][i];
    ProdLess(chunk[..j], dims[..j]);
    var p := Cell(dims, chunk, b, e);
    assert InBox(dims, e);
    assert Target(dims, chunk, p) == Some(Flat(dims, e));
  }

  /** The two tests accept exactly the shapes on which the chunking kernel would
      leave the buffer as it is. */
  lemma FastPathExact(dims: Shape, chunk: Shape)
    requires |chunk| == |dims| && Positive(chunk) && Positive(dims)
    ensures ValidDims(dims, chunk) && Contiguous(dims, chunk) <==> KernelIsIdentity(dims, chunk)
  {
    if ValidDims(dims, chunk) && Contiguous(dims, chunk) {
      FastPathIsIdentity(dims, chunk);
    } else if i :| 0 <= i < |dims| && dims[i] % chunk[i] != 0 {
      RemainderPads(dims, chunk, i);
    } else {
      var i, j :| 0 <= i < j < |dims| && dims[i] != chunk[i] && chunk[j] != 1;
      GapMoves(dims, chunk, i, j);
    }
  }

  // ------------------------------------------------------------ the slices

  /** All of chunk memory, as the copying path builds it. */
  function ChunkMemory(dims: Shape, chunk: Shape, values: seq<int>): (mem: seq<int>)
    requires |chunk| == |dims| && Positive(chunk) && |values| == Prod(dims)
    ensures |mem| == Total(dims, chunk)
  {
    Filled(dims, chunk, values, seq(Total(dims, chunk), i => 0), Range(0, Total(dims, chunk)))
  }

  /** Slicing the array in place gives the very chunks the copying path builds. */
  lemma FastPathChunks(dims: Shape, chunk: Shape, values: seq<int>)
    requires Positive(chunk) && ValidDims(dims, chunk) && Contiguous(dims, chunk)
    requires |values| == Prod(dims)
    ensures ChunkMemory(dims, chunk, values) == values
  {
    FastPathIsIdentity(dims, chunk);
    DivisibleTotal(dims, chunk);
  }

  /** Joining chunks in place is what restoring from them would do. */
  lemma FastPathJoin(dims: Shape, chunk: Shape, dest: seq<int>, mem: seq<int>)
    requires Positive(chunk) && ValidDims(dims, chunk) && Contiguous(dims, chunk)
    requires |dest| == Prod(dims) && |mem| == Total(dims, chunk)
    ensures Restored(dims, chunk, dest, mem, Range(0, |mem|)) == mem
  {
    FastPathIsIdentity(dims, chunk);
    DivisibleTotal(dims, chunk);
    forall o | 0 <= o < |dest|
      ensures Home(dims, chunk, o) == o
    {
      HomeOfTarget(dims, chunk, o);
    }
  }
}
