/** `chunk_data` and `restore_data`: the dispatch on rank, with the guard that the
    any-rank entry point puts in front of the general kernel. */
module ChunkData {
  import opened Layout
  import opened ChunkMap
  import opened Kernel
  import opened NestedLoops
  import opened Scans
  import opened Contiguity
  import Rank1
  import Rank2
  import Rank3

  datatype Result<+T> = Success(value: T) | Failure(error: string)

  // ------------------------------------------------ the guard at rank 4 and up

  predicate Sorted(s: seq<nat>) {
    forall i :: 0 <= i < |s| - 1 ==> s[i] <= s[i + 1]
  }

  /** Index of the first axis of extent 0. */
  lemma {:induction false} FirstZero(dims: Shape, i: nat) returns (z: nat)
    requires i < |dims| && dims[i] == 0
    ensures z <= i && dims[z] == 0 && Positive(dims[..z])
  {
    if Positive(dims[..i]) {
      z := i;
    } else {
      var k :| 0 <= k < i && dims[k] == 0;
      z := FirstZero(dims, k);
    }
  }

  /** The strides are out of order exactly when some axis before the last is empty:
      the guard refuses every array that has elements. */
  lemma GuardExact(dims: Shape)
    ensures Sorted(Strides(dims)) <==> forall i :: 0 <= i < |dims| - 1 ==> dims[i] >= 1
  {
    var s := Strides(dims);
    forall i | 0 <= i < |dims| - 1
      ensures s[i + 1] == s[i] * dims[i]
    {
      assert dims[..i + 1] == dims[..i] + [dims[i]];
      ProdSnoc(dims[..i], dims[i]);
    }
    if i :| 0 <= i < |dims| - 1 && dims[i] == 0 {
      var z := FirstZero(dims, i);
      ProdPositive(dims[..z]);
      assert s[z] >= 1 && s[z + 1] == 0;
    } else {
      forall i | 0 <= i < |dims| - 1
        ensures s[i] <= s[i + 1]
      {
        MulMono(s[i], 1, dims[i]);
      }
    }
  }

  method StridesAreSorted(dims: Shape) returns (sorted: bool)
    ensures sorted <==> forall i :: 0 <= i < |dims| - 1 ==> dims[i] >= 1
  {
    GuardExact(dims);
    var strides := ExclusiveScan(dims);
    for i := 0 to |strides|
      invariant i > 0 ==> forall k :: 0 <= k < i - 1 ==> strides[k] <= strides[k + 1]
    {
      if i > 0 && strides[i - 1] > strides[i] {
        return false;
      }
    }
    return true;
  }

  // ------------------------------------------------------------- dispatch

  ghost predicate Chunkable(dims: Shape, block: Shape, schedule: seq<nat>) {
    && 1 <= |dims| == |block| && Positive(block) && (|dims| >= 4 ==> Positive(dims))
    && (|dims| <= 3 ==> Covers(schedule, MaxIdx(dims, block)[|dims| - 1]))
  }

  /** The kernel for the rank of the array, or the guard's exception. */
  method Dispatch(policy: Policy, data: array<int>, mem: array<int>, dims: Shape, block: Shape, schedule: seq<nat>)
    returns (refused: bool)
    requires data != mem && Fits(dims, block, Snap(data, mem)) && Chunkable(dims, block, schedule)
    modifies data, mem
    ensures refused <==> |dims| >= 4
    ensures Snap(data, mem) ==
            if refused then old(Snap(data, mem))
            else After(policy, dims, block, old(Snap(data, mem)), Range(0, Total(dims, block)))
  {
    if |dims| == 1 {
      Rank1.Dispatch1D(policy, data, mem, dims, block, schedule);
      return false;
    } else if |dims| == 2 {
      Rank2.Dispatch2D(policy, data, mem, dims, block, schedule);
      return false;
    } else if |dims| == 3 {
      Rank3.Dispatch3D(policy, data, mem, dims, block, schedule);
      return false;
    } else {
      var sorted := StridesAreSorted(dims);
      return sorted;
    }
  }

  method WorkingMemorySize(dims: Shape, block: Shape) returns (size: nat)
    requires |block| == |dims| && Positive(block)
    ensures size == Total(dims, block)
    ensures PaddedSize(dims, block, size)
  {
    TotalIsPaddedSize(dims, block);
    var max, blockSize := BlockCounts(dims, block);
    var blocks := Accumulate(max);
    return blocks * blockSize;
  }

  lemma FilledAnywhere(dims: Shape, block: Shape, values: seq<int>, junk: seq<int>)
    requires |block| == |dims| && Positive(block) && |values| == Prod(dims) && |junk| == Total(dims, block)
    ensures Filled(dims, block, values, junk, Range(0, |junk|)) == ChunkMemory(dims, block, values)
  {
  }

  method ChunkData(data: array<int>, dims: Shape, block: Shape, schedule: seq<nat>)
    returns (r: Result<array<int>>)
    requires Chunkable(dims, block, schedule) && data.Length == Prod(dims)
    modifies data
    ensures data[..] == old(data[..])
    ensures r.Failure? <==> |dims| >= 4
    ensures r.Success? ==> fresh(r.value) && PaddedSize(dims, block, r.value.Length)
    ensures r.Success? ==> r.value[..] == ChunkMemory(dims, block, data[..])
  {
    ghost var values := data[..];
    var size := WorkingMemorySize(dims, block);
    var mem := new int[size];
    ghost var junk := mem[..];
    var refused := Dispatch(ToBlocks, data, mem, dims, block, schedule);
    if refused {
      return Failure("strides are too large");
    }
    FilledAnywhere(dims, block, values, junk);
    return Success(mem);
  }

  /** Returns whether the guard refused; otherwise `data` has been rebuilt. */
  method RestoreData(data: array<int>, mem: array<int>, dims: Shape, block: Shape, schedule: seq<nat>)
    returns (refused: bool)
    requires Chunkable(dims, block, schedule) && data != mem
    requires data.Length == Prod(dims) && mem.Length == Total(dims, block)
    modifies data, mem
    ensures mem[..] == old(mem[..])
    ensures refused <==> |dims| >= 4
    ensures data[..] == if refused then old(data[..])
                        else Restored(dims, block, old(data[..]), mem[..], Range(0, mem.Length))
  {
    refused := Dispatch(FromBlocks, data, mem, dims, block, schedule);
  }

  /** Restoring what chunking built rebuilds the array, whatever the destination held. */
  lemma RestoreChunkMemory(dims: Shape, block: Shape, values: seq<int>, dest: seq<int>)
    requires |block| == |dims| && Positive(block) && |values| == |dest| == Prod(dims)
    ensures Restored(dims, block, dest, ChunkMemory(dims, block, values), Range(0, Total(dims, block))) == values
  {
    ChunkRestoreRoundTrip(dims, block, values, seq(Total(dims, block), i => 0), dest);
  }

  /** The smallest array with two elements along each of four axes is refused. */
  lemma RankFourRefused()
    ensures Sorted(Strides([2, 2, 2, 2]))
  {
    GuardExact([2, 2, 2, 2]);
  }
}
