/** `normalized_dims`: drop the axes of extent 1, then pad or fold to a target rank. */
module NormalizedDims {
  import opened Layout
  import opened Wrappers

  /** The axes longer than 1, in order. */
  function LongAxes(dims: Shape): (r: Shape)
    ensures forall i :: 0 <= i < |r| ==> r[i] > 1
  {
    if dims == [] then []
    else if dims[0] > 1 then [dims[0]] + LongAxes(dims[1..])
    else LongAxes(dims[1..])
  }

  /** How many of the first `i` axes are longer than 1. */
  function LongBefore(dims: Shape, i: nat): nat
    requires i <= |dims|
  {
    if i == 0 then 0 else LongBefore(dims, i - 1) + (if dims[i - 1] > 1 then 1 else 0)
  }

  lemma {:induction false} LongAxesSnoc(dims: Shape, d: nat)
    ensures LongAxes(dims + [d]) == LongAxes(dims) + (if d > 1 then [d] else [])
  {
    if dims == [] {
      assert [d][1..] == [];
    } else {
      assert (dims + [d])[1..] == dims[1..] + [d];
      LongAxesSnoc(dims[1..], d);
    }
  }

  lemma {:induction false} LongBeforePrefix(dims: Shape, d: nat, i: nat)
    requires i <= |dims|
    ensures LongBefore(dims + [d], i) == LongBefore(dims, i)
  {
    if i > 0 {
      LongBeforePrefix(dims, d, i - 1);
    }
  }

  /** The long axes are kept in order: axis `i` goes behind the long ones before it. */
  lemma {:induction false} LongAxesAt(dims: Shape)
    ensures |LongAxes(dims)| == LongBefore(dims, |dims|)
    ensures forall i :: 0 <= i < |dims| && dims[i] > 1 ==>
              LongBefore(dims, i) < |LongAxes(dims)| && LongAxes(dims)[LongBefore(dims, i)] == dims[i]
  {
    if dims != [] {
      var n := |dims| - 1;
      var init, d := dims[..n], dims[n];
      assert dims == init + [d];
      LongAxesAt(init);
      LongAxesSnoc(init, d);
      LongBeforePrefix(init, d, n);
      forall i | 0 <= i < |dims| && dims[i] > 1
        ensures LongBefore(dims, i) < |LongAxes(dims)| && LongAxes(dims)[LongBefore(dims, i)] == dims[i]
      {
        LongBeforePrefix(init, d, i);
      }
    }
  }

  lemma {:induction false} LongAxesKeepSize(dims: Shape)
    requires Positive(dims)
    ensures Prod(LongAxes(dims)) == Prod(dims)
  {
    if dims != [] {
      LongAxesKeepSize(dims[1..]);
      if dims[0] > 1 {
        assert ([dims[0]] + LongAxes(dims[1..]))[1..] == LongAxes(dims[1..]);
      }
    }
  }

  method CopyLong(dims: Shape) returns (long: seq<nat>)
    ensures long == LongAxes(dims)
  {
    long := [];
    for i := 0 to |dims|
      invariant long + LongAxes(dims[i..]) == LongAxes(dims)
    {
      assert dims[i..][1..] == dims[i + 1..];
      if dims[i] > 1 {
        long := long + [dims[i]];
      }
    }
  }

  /** Folds the leading axes into the first slot and shifts the rest down, in place. */
  method Fold(long: array<nat>, target: nat)
    requires 1 <= target < long.Length
    modifies long
    ensures var excess := long.Length - (target - 1);
            long[..target] == [Prod(old(long[..excess]))] + old(long[excess..])
  {
    ghost var was := long[..];
    var excess := long.Length - (target - 1);
    var first := 1;
    for i := 0 to excess
      invariant first == Prod(was[..i]) && long[..] == was
    {
      ProdSnoc(was[..i], was[i]);
      assert was[..i + 1] == was[..i] + [was[i]];
      first := first * long[i];
    }
    long[0] := first;
    for i := excess to long.Length
      invariant long[0] == Prod(was[..excess])
      invariant forall k :: excess <= k < i ==> long[k - excess + 1] == was[k]
      invariant forall k :: i <= k < long.Length ==> long[k] == was[k]
    {
      long[i - excess + 1] := long[i];
    }
    forall k | 1 <= k < target
      ensures long[k] == was[excess..][k - 1]
    {
      assert long[(k - 1 + excess) - excess + 1] == was[k - 1 + excess];
    }
  }

  /** `n` entries: the long axes padded with `fill`, or with the leading ones folded. */
  function Normalized(dims: Shape, n: Option<nat>, fill: nat): (r: Shape)
    requires n.Some? && n.value == 0 ==> LongAxes(dims) == []
  {
    var long := LongAxes(dims);
    var target := if n.Some? then n.value else |long|;
    if |long| < target then long + seq(target - |long|, i => fill)
    else if target < |long| then
      var excess := |long| - (target - 1);
      [Prod(long[..excess])] + long[excess..]
    else long
  }

  method NormalizeDims(dims: Shape, n: Option<nat>, fill: nat) returns (r: Shape)
    requires n.Some? && n.value == 0 ==> LongAxes(dims) == []
    ensures r == Normalized(dims, n, fill)
    ensures var long := LongAxes(dims);
            var target := if n.Some? then n.value else |long|;
            && |r| == target
            && (|long| <= target ==> r[..|long|] == long && forall k :: |long| <= k < target ==> r[k] == fill)
            && (target < |long| ==> r[0] == Prod(long[..|long| - target + 1]) && r[1..] == long[|long| - target + 1..])
  {
    var long := CopyLong(dims);
    var target := if n.Some? then n.value else |long|;
    if |long| < target {
      return long + seq(target - |long|, i => fill);
    } else if target < |long| {
      var folded := new nat[|long|](i requires 0 <= i < |long| => long[i]);
      assert folded[..] == long;
      assert folded[..|long| - (target - 1)] == long[..|long| - (target - 1)];
      assert folded[|long| - (target - 1)..] == long[|long| - (target - 1)..];
      Fold(folded, target);
      return folded[..target];
    }
    return long;
  }

  lemma {:induction false} PaddingProduct(n: nat, fill: nat)
    requires n >= 1
    ensures Prod(seq(n, i => fill)) == 1 <==> fill == 1
  {
    var s := seq(n, i => fill);
    assert s[1..] == seq(n - 1, i => fill);
    if n == 1 {
      assert s[1..] == [];
    } else {
      PaddingProduct(n - 1, fill);
      if fill > 1 {
        TimesAtLeastTwo(fill, Prod(s[1..]));
      }
    }
  }

  lemma TimesAtLeastTwo(a: nat, b: nat)
    requires a >= 2
    ensures a * b != 1
  {
    if b >= 1 {
      MulMono(a, 1, b);
    }
  }

  lemma TimesIsOne(p: nat, q: nat)
    requires p >= 1
    ensures p * q == p <==> q == 1
  {
    if q > 1 {
      MulMono(p, 2, q);
    }
  }

  /** The rank is the target, and the number of elements is kept exactly when the
      target does not exceed the number of long axes or the filler is 1. */
  lemma NormalizedExact(dims: Shape, n: Option<nat>, fill: nat)
    requires Positive(dims) && (n.Some? && n.value == 0 ==> LongAxes(dims) == [])
    ensures |Normalized(dims, n, fill)| == if n.Some? then n.value else |LongAxes(dims)|
    ensures Prod(Normalized(dims, n, fill)) == Prod(dims)
            <==> n.None? || n.value <= |LongAxes(dims)| || fill == 1
  {
    var long := LongAxes(dims);
    LongAxesKeepSize(dims);
    var target := if n.Some? then n.value else |long|;
    if |long| < target {
      var pad := seq(target - |long|, i => fill);
      ProdConcat(long, pad);
      PaddingProduct(target - |long|, fill);
      ProdPositive(long);
      TimesIsOne(Prod(long), Prod(pad));
    } else if target < |long| {
      var excess := |long| - (target - 1);
      assert long == long[..excess] + long[excess..];
      ProdConcat(long[..excess], long[excess..]);
      assert ([Prod(long[..excess])] + long[excess..])[1..] == long[excess..];
    }
  }

  /** Two elements padded to two axes with 0 become none. */
  lemma PaddedAway()
    ensures LongAxes([2]) == [2] && Normalized([2], Some(2), 0) == [2, 0]
    ensures Prod([2]) == 2 && Prod(Normalized([2], Some(2), 0)) == 0
  {
    assert [2][1..] == [] && LongAxes([2]) == [2] + [];
    assert Prod([2]) == 2 * 1;
    assert [2, 0][1..] == [0] && Prod([0]) == 0;
  }
}
