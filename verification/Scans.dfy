/** The numeric algorithms the source takes from its support library: scans,
    reductions and elementwise products, as loops. */
module Scans {
  import opened Layout

  /** Elementwise product. */
  function Times(a: seq<nat>, b: seq<nat>): (c: seq<nat>)
    requires |a| == |b|
    ensures |c| == |a|
  {
    seq(|a|, i requires 0 <= i < |a| => a[i] * b[i])
  }

  method ExclusiveScan(dims: Shape) returns (s: seq<nat>)
    ensures s == Strides(dims)
  {
    s := [];
    var acc := 1;
    for i := 0 to |dims|
      invariant |s| == i && acc == Prod(dims[..i])
      invariant forall k :: 0 <= k < i ==> s[k] == Prod(dims[..k])
    {
      s := s + [acc];
      ProdSnoc(dims[..i], dims[i]);
      assert dims[..i + 1] == dims[..i] + [dims[i]];
      acc := acc * dims[i];
    }
  }

  method TransformReduce(a: seq<nat>, b: seq<nat>) returns (sum: nat)
    requires |a| == |b|
    ensures sum == Dot(a, b)
  {
    sum := 0;
    for i := 0 to |a|
      invariant sum == Dot(a[..i], b[..i])
    {
      DotSnoc(a, b, i);
      sum := sum + a[i] * b[i];
    }
    assert a[..|a|] == a && b[..|b|] == b;
  }

  method Multiply(a: seq<nat>, b: seq<nat>) returns (c: seq<nat>)
    requires |a| == |b|
    ensures c == Times(a, b)
  {
    c := [];
    for i := 0 to |a|
      invariant |c| == i && forall k :: 0 <= k < i ==> c[k] == a[k] * b[k]
    {
      c := c + [a[i] * b[i]];
    }
  }

  method Accumulate(dims: Shape) returns (n: nat)
    ensures n == Prod(dims)
  {
    n := 1;
    for i := 0 to |dims|
      invariant n == Prod(dims[..i])
    {
      ProdSnoc(dims[..i], dims[i]);
      assert dims[..i + 1] == dims[..i] + [dims[i]];
      n := n * dims[i];
    }
    assert dims[..|dims|] == dims;
  }
}
