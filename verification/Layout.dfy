/** Flat storage of n-dimensional arrays, fastest dimension first: the index
    arithmetic every other module rests on.  `Flat` sends an index vector of the
    box `dims` to its place in the flat buffer and `Unflat` is its inverse;
    `Strides` and `Dot` are the precomputed-stride form of the same map. */
module Layout {

  type Shape = seq<nat>

  function Prod(dims: Shape): nat {
    if dims == [] then 1 else dims[0] * Prod(dims[1..])
  }

  predicate Positive(dims: Shape) {
    forall i :: 0 <= i < |dims| ==> dims[i] >= 1
  }

  predicate InBox(dims: Shape, idx: seq<nat>) {
    |idx| == |dims| && forall i :: 0 <= i < |dims| ==> idx[i] < dims[i]
  }

  /** sum_i idx[i] * prod_{m < i} dims[m], in Horner form. */
  function Flat(dims: Shape, idx: seq<nat>): nat
    requires |idx| == |dims|
  {
    if dims == [] then 0 else idx[0] + dims[0] * Flat(dims[1..], idx[1..])
  }

  /** Mixed-radix digits of `p`. */
  function Unflat(dims: Shape, p: nat): (idx: seq<nat>)
    requires Positive(dims)
    ensures |idx| == |dims|
  {
    if dims == [] then [] else [p % dims[0]] + Unflat(dims[1..], p / dims[0])
  }

  /** The exclusive prefix products of `dims`. */
  function Strides(dims: Shape): (s: seq<nat>)
    ensures |s| == |dims|
    ensures forall i :: 0 <= i < |dims| ==> s[i] == Prod(dims[..i])
  {
    seq(|dims|, i requires 0 <= i < |dims| => Prod(dims[..i]))
  }

  function Dot(a: seq<nat>, b: seq<nat>): nat
    requires |a| == |b|
  {
    if a == [] then 0 else a[0] * b[0] + Dot(a[1..], b[1..])
  }

  function Zeros(n: nat): (z: seq<nat>)
    ensures |z| == n && forall i :: 0 <= i < n ==> z[i] == 0
  {
    seq(n, i => 0)
  }

  // ---------------------------------------------------------------- products

  lemma {:induction false} ProdPositive(dims: Shape)
    ensures Positive(dims) <==> Prod(dims) >= 1
    ensures !Positive(dims) <==> Prod(dims) == 0
  {
    if dims != [] {
      ProdPositive(dims[1..]);
      assert forall i :: 0 < i < |dims| ==> dims[i] == dims[1..][i - 1];
      if Positive(dims) {
        assert Positive(dims[1..]);
        MulPositive(dims[0], Prod(dims[1..]));
      } else if dims[0] >= 1 {
        assert !Positive(dims[1..]);
      }
    }
  }

  lemma MulPositive(a: nat, b: nat)
    requires a >= 1 && b >= 1
    ensures a * b >= 1 && a * b >= a && a * b >= b
  {
    assert (a - 1) * (b - 1) >= 0;
    assert (a - 1) * (b - 1) == a * b - a - b + 1;
    assert (a - 1) * b == a * b - b;
    assert a * (b - 1) == a * b - a;
  }

  lemma {:induction false} ProdConcat(a: Shape, b: Shape)
    ensures Prod(a + b) == Prod(a) * Prod(b)
  {
    if a == [] {
      assert a + b == b;
    } else {
      assert (a + b)[1..] == a[1..] + b;
      ProdConcat(a[1..], b);
      assert a[0] * (Prod(a[1..]) * Prod(b)) == (a[0] * Prod(a[1..])) * Prod(b);
    }
  }

  lemma ProdSnoc(a: Shape, d: nat)
    ensures Prod(a + [d]) == Prod(a) * d
  {
    ProdConcat(a, [d]);
    assert [d][1..] == [];
    assert Prod([d]) == d * 1;
  }

  lemma ProdPrefix(dims: Shape, i: nat)
    requires i < |dims|
    ensures Prod(dims[..i + 1]) == Prod(dims[..i]) * dims[i]
  {
    ProdSnoc(dims[..i], dims[i]);
    assert dims[..i + 1] == dims[..i] + [dims[i]];
  }

  // -------------------------------------------------- Flat is a bijection

  /** Every index vector of the box lands inside the buffer. */
  lemma {:induction false} FlatInRange(dims: Shape, idx: seq<nat>)
    requires InBox(dims, idx)
    ensures Flat(dims, idx) < Prod(dims)
  {
    if dims != [] {
      FlatInRange(dims[1..], idx[1..]);
      var f, q := Flat(dims[1..], idx[1..]), Prod(dims[1..]);
      MulMono(dims[0], f + 1, q);
      Distrib(dims[0], f, 1);
    }
  }

  lemma MulMono(a: nat, x: nat, y: nat)
    requires x <= y
    ensures a * x <= a * y
  {
    assert a * (y - x) >= 0;
  }

  lemma MulComm(a: nat, b: nat)
    ensures a * b == b * a
  {
  }

  lemma Distrib(a: nat, x: nat, y: nat)
    ensures a * (x + y) == a * x + a * y
  {
  }

  lemma MulSucc(a: nat, x: nat, y: nat)
    requires y == x + 1
    ensures a * y == a + a * x
  {
  }

  lemma MulAssoc(a: nat, b: nat, c: nat)
    ensures a * b * c == a * (b * c)
    ensures b * a * c == a * (b * c)
  {
  }

  lemma SuccMul(x: nat, a: nat, y: nat)
    requires y == x + 1
    ensures y * a == x * a + a
  {
  }

  lemma MulRotate(d: nat, q: nat, k: nat)
    ensures d * (q * k) == q * (d * k)
  {
  }

  lemma DivModOfSum(r: nat, d: nat, q: nat)
    requires r < d
    ensures (r + d * q) % d == r && (r + d * q) / d == q
  {
    var k, m := (r + d * q) / d, (r + d * q) % d;
    assert d * k + m == r + d * q;
    if k < q {
      MulMono(d, k + 1, q);
    } else if k > q {
      MulMono(d, q + 1, k);
    }
  }

  /** Decoding undoes flattening, so `Flat` is injective on the box. */
  lemma {:induction false} UnflatFlat(dims: Shape, idx: seq<nat>)
    requires InBox(dims, idx)
    ensures Positive(dims) && Unflat(dims, Flat(dims, idx)) == idx
  {
    if dims != [] {
      assert InBox(dims[1..], idx[1..]);
      UnflatFlat(dims[1..], idx[1..]);
      DivModOfSum(idx[0], dims[0], Flat(dims[1..], idx[1..]));
    }
  }

  lemma DivBelow(p: nat, a: nat, b: nat)
    requires a >= 1 && p < a * b
    ensures p / a < b
  {
    if p / a >= b {
      MulMono(a, b, p / a);
      assert false;
    }
  }

  lemma DivModJoin(p: nat, d: nat)
    requires d >= 1
    ensures p % d < d && p % d + d * (p / d) == p
  {
  }

  /** Flattening undoes decoding, so `Flat` is onto the buffer. */
  lemma {:induction false} FlatUnflat(dims: Shape, p: nat)
    requires Positive(dims) && p < Prod(dims)
    ensures InBox(dims, Unflat(dims, p)) && Flat(dims, Unflat(dims, p)) == p
  {
    if dims != [] {
      DivBelow(p, dims[0], Prod(dims[1..]));
      DivModJoin(p, dims[0]);
      var rest := Unflat(dims[1..], p / dims[0]);
      FlatUnflat(dims[1..], p / dims[0]);
      assert Unflat(dims, p) == [p % dims[0]] + rest && Unflat(dims, p)[1..] == rest;
      forall i | 0 <= i < |dims|
        ensures Unflat(dims, p)[i] < dims[i]
      {
        if i > 0 {
          assert Unflat(dims, p)[i] == rest[i - 1] && dims[i] == dims[1..][i - 1];
        }
      }
    }
  }

  // ------------------------------------------------- the precomputed strides

  lemma {:induction false} DotScaled(a: seq<nat>, c: nat, b: seq<nat>)
    requires |a| == |b|
    ensures Dot(seq(|a|, i requires 0 <= i < |a| => c * a[i]), b) == c * Dot(a, b)
  {
    var ca := seq(|a|, i requires 0 <= i < |a| => c * a[i]);
    if a != [] {
      var rest := a[1..];
      assert ca[1..] == seq(|rest|, i requires 0 <= i < |rest| => c * rest[i]);
      DotScaled(rest, c, b[1..]);
      assert c * a[0] * b[0] == c * (a[0] * b[0]);
      assert c * (a[0] * b[0] + Dot(rest, b[1..])) == c * (a[0] * b[0]) + c * Dot(rest, b[1..]);
    }
  }

  /** The scalar product with the exclusive prefix products is `Flat`, also for
      index vectors outside the box. */
  lemma {:induction false} DotStrides(dims: Shape, idx: seq<nat>)
    requires |idx| == |dims|
    ensures Dot(Strides(dims), idx) == Flat(dims, idx)
  {
    if dims != [] {
      var d, rest := dims[0], dims[1..];
      var s := Strides(rest);
      forall i | 0 <= i < |rest|
        ensures Strides(dims)[1..][i] == d * s[i]
      {
        assert dims[..i + 1][1..] == rest[..i];
      }
      assert Strides(dims)[1..] == seq(|s|, i requires 0 <= i < |s| => d * s[i]);
      DotScaled(s, d, idx[1..]);
      DotStrides(rest, idx[1..]);
      assert dims[..0] == [];
      assert Strides(dims)[0] == 1;
    }
  }

  lemma {:induction false} FlatSnoc(dims: Shape, idx: seq<nat>, d: nat, i: nat)
    requires |idx| == |dims|
    ensures Flat(dims + [d], idx + [i]) == Flat(dims, idx) + i * Prod(dims)
  {
    if dims == [] {
      assert (dims + [d])[1..] == [] && (idx + [i])[1..] == [];
    } else {
      assert (dims + [d])[1..] == dims[1..] + [d] && (idx + [i])[1..] == idx[1..] + [i];
      FlatSnoc(dims[1..], idx[1..], d, i);
      var f, p := Flat(dims[1..], idx[1..]), Prod(dims[1..]);
      assert dims[0] * (f + i * p) == dims[0] * f + i * (dims[0] * p);
    }
  }

  lemma {:induction false} FlatZeros(dims: Shape)
    ensures Flat(dims, Zeros(|dims|)) == 0
  {
    if dims != [] {
      assert Zeros(|dims|)[1..] == Zeros(|dims[1..]|);
      FlatZeros(dims[1..]);
    }
  }

  lemma {:induction false} DotSnoc(a: seq<nat>, b: seq<nat>, i: nat)
    requires |a| == |b| && i < |a|
    ensures Dot(a[..i + 1], b[..i + 1]) == Dot(a[..i], b[..i]) + a[i] * b[i]
  {
    if i == 0 {
      assert a[..1] == [a[0]] && b[..1] == [b[0]];
      assert [a[0]][1..] == [] && [b[0]][1..] == [];
    } else {
      assert a[..i + 1][1..] == a[1..][..i] && b[..i + 1][1..] == b[1..][..i];
      assert a[..i][1..] == a[1..][..i - 1] && b[..i][1..] == b[1..][..i - 1];
      DotSnoc(a[1..], b[1..], i - 1);
    }
  }

  lemma {:induction false} DotZeros(a: seq<nat>)
    ensures Dot(a, Zeros(|a|)) == 0
  {
    if a != [] {
      assert Zeros(|a|)[1..] == Zeros(|a[1..]|);
      DotZeros(a[1..]);
    }
  }

  function Unit(n: nat, j: nat): (e: seq<nat>)
    ensures |e| == n
  {
    seq(n, i => if i == j then 1 else 0)
  }
}
