/** The fixed-rank indexer: Horner evaluation from the slowest axis down. */
module BasicIndexer {
  import opened Layout

  /** `operator()`; the loop runs at least once, so it needs two axes or more. */
  method Index(maxDims: Shape, idxs: seq<nat>) returns (idx: nat)
    requires |maxDims| == |idxs| >= 2
    ensures idx == Flat(maxDims, idxs)
  {
    var n := |maxDims|;
    idx := idxs[n - 1];
    var i := n - 1;
    FlatOne(maxDims[i..], idxs[i..]);
    while true
      invariant 1 <= i <= n - 1
      invariant idx == Flat(maxDims[i..], idxs[i..])
      decreases i
    {
      i := i - 1;
      assert maxDims[i..][1..] == maxDims[i + 1..] && idxs[i..][1..] == idxs[i + 1..];
      assert idx * maxDims[i] == maxDims[i] * idx;
      idx := idx * maxDims[i] + idxs[i];
      if i == 0 {
        break;
      }
    }
    assert maxDims[0..] == maxDims && idxs[0..] == idxs;
  }

  lemma FlatOne(d: Shape, x: seq<nat>)
    requires |d| == |x| == 1
    ensures Flat(d, x) == x[0]
  {
    assert d[1..] == [] && x[1..] == [];
  }
}
