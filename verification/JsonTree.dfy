/** JSON documents as trees, and the flattening of nested numeric arrays. */
module JsonTree {
  import opened Layout
  import opened Wrappers

  datatype Json =
    | Null
    | Boolean(b: bool)
    | Number(r: real)
    | Text(s: string)
    | Array(items: seq<Json>)
    | Object(fields: map<string, Json>)

  /** Type of the first scalar of a nested array: that scalar, or the empty array met
      on the way to it. */
  function ArrayType(j: Json): Json
    decreases j
  {
    if j.Array? && |j.items| > 0 then ArrayType(j.items[0]) else j
  }

  // ----------------------------------------------------------- flattening

  datatype Flatten = Flatten(values: seq<real>, dims: seq<nat>)

  /** One turn of the recursion at `depth`; `None` is the exception for other types. */
  function Flattened(j: Json, a: Flatten, depth: nat): (r: Option<Flatten>)
    requires depth <= |a.dims|
    ensures r.Some? ==> |r.value.dims| >= |a.dims|
    decreases j, 1
  {
    match j
    case Array(items) =>
      var start := if |a.dims| <= depth then a.(dims := a.dims + [0]) else a;
      (match FlattenedItems(items, start, depth + 1)
       case Some(r) => Some(r.(dims := r.dims[depth := |items|]))
       case None => None)
    case Number(v) => Some(a.(values := a.values + [v]))
    case _ => None
  }

  function FlattenedItems(items: seq<Json>, a: Flatten, depth: nat): (r: Option<Flatten>)
    requires depth <= |a.dims|
    ensures r.Some? ==> |r.value.dims| >= |a.dims|
    decreases items, 0
  {
    if items == [] then Some(a)
    else match Flattened(items[0], a, depth)
         case Some(r) => FlattenedItems(items[1..], r, depth)
         case None => None
  }

  /** The accumulators the recursion shares. */
  class Accumulators {
    var values: seq<real>
    var dims: seq<nat>

    constructor ()
      ensures values == [] && dims == []
    {
      values, dims := [], [];
    }

    ghost function Abs(): Flatten
      reads this
    {
      Flatten(values, dims)
    }

    /** Returns false where the source throws. */
    method Visit(j: Json, depth: nat) returns (ok: bool)
      requires depth <= |dims|
      modifies this
      ensures ok <==> Flattened(j, old(Abs()), depth).Some?
      ensures ok ==> Flattened(j, old(Abs()), depth) == Some(Abs())
      decreases j, 1
    {
      match j
      case Array(items) =>
        var entries := 0;
        if |dims| <= depth {
          dims := dims + [0];
        }
        ghost var target := FlattenedItems(items, Abs(), depth + 1);
        for i := 0 to |items|
          invariant entries == i && depth < |dims|
          invariant FlattenedItems(items[i..], Abs(), depth + 1) == target
        {
          assert items[i..][0] == items[i] && items[i..][1..] == items[i + 1..];
          ok := Visit(items[i], depth + 1);
          if !ok {
            return false;
          }
          entries := entries + 1;
        }
        dims := dims[depth := entries];
        return true;
      case Number(v) =>
        values := values + [v];
        return true;
      case _ =>
        return false;
    }
  }

  // ------------------------------------------------------ rectangular arrays

  /** Nested to depth `|shape|`, every array at level `i` having `shape[i]` >= 1 entries. */
  ghost predicate Rectangular(j: Json, shape: Shape)
    decreases |shape|
  {
    if shape == [] then j.Number?
    else j.Array? && |j.items| == shape[0] >= 1 && forall i :: 0 <= i < |j.items| ==> Rectangular(j.items[i], shape[1..])
  }

  function Leaf(j: Json, idx: seq<nat>): Json
    decreases |idx|
  {
    if idx != [] && j.Array? && idx[0] < |j.items| then Leaf(j.items[idx[0]], idx[1..]) else j
  }

  /** Position of an index vector when the last index runs fastest. */
  function RowMajor(shape: Shape, idx: seq<nat>): nat
    requires |idx| == |shape|
  {
    if shape == [] then 0 else idx[0] * Prod(shape[1..]) + RowMajor(shape[1..], idx[1..])
  }

  /** The numbers of a rectangular array from left to right. */
  ghost function Leaves(j: Json, shape: Shape): (r: seq<real>)
    requires Rectangular(j, shape)
    decreases |shape|, 1, 0
  {
    if shape == [] then [j.r] else LeavesOf(j.items, shape)
  }

  ghost function LeavesOf(items: seq<Json>, shape: Shape): (r: seq<real>)
    requires |shape| >= 1 && forall i :: 0 <= i < |items| ==> Rectangular(items[i], shape[1..])
    decreases |shape|, 0, |items|
  {
    if items == [] then [] else Leaves(items[0], shape[1..]) + LeavesOf(items[1..], shape)
  }

  lemma TailRectangular(items: seq<Json>, shape: Shape)
    requires items != [] && forall i :: 0 <= i < |items| ==> Rectangular(items[i], shape)
    ensures Rectangular(items[0], shape)
    ensures forall i :: 0 <= i < |items[1..]| ==> Rectangular(items[1..][i], shape)
  {
    forall i | 0 <= i < |items[1..]|
      ensures Rectangular(items[1..][i], shape)
    {
      assert items[1..][i] == items[i + 1];
    }
  }

  lemma {:induction false} LeavesCount(j: Json, shape: Shape)
    requires Rectangular(j, shape)
    ensures |Leaves(j, shape)| == Prod(shape)
    decreases |shape|, 1, 0
  {
    if shape != [] {
      LeavesOfCount(j.items, shape);
    }
  }

  lemma {:induction false} LeavesOfCount(items: seq<Json>, shape: Shape)
    requires |shape| >= 1 && forall i :: 0 <= i < |items| ==> Rectangular(items[i], shape[1..])
    ensures |LeavesOf(items, shape)| == |items| * Prod(shape[1..])
    decreases |shape|, 0, |items|
  {
    if items != [] {
      TailRectangular(items, shape[1..]);
      LeavesCount(items[0], shape[1..]);
      LeavesOfCount(items[1..], shape);
      SuccMul(|items| - 1, Prod(shape[1..]), |items|);
    }
  }

  lemma {:induction false} LeafPosition(j: Json, shape: Shape, idx: seq<nat>)
    requires Rectangular(j, shape) && InBox(shape, idx)
    ensures RowMajor(shape, idx) < |Leaves(j, shape)| == Prod(shape)
    ensures Leaf(j, idx) == Number(Leaves(j, shape)[RowMajor(shape, idx)])
    decreases |shape|, 1, 0
  {
    LeavesCount(j, shape);
    if shape != [] {
      LeafPositionIn(j.items, shape, idx[0], idx[1..]);
    }
  }

  lemma {:induction false} LeafPositionIn(items: seq<Json>, shape: Shape, i: nat, idx: seq<nat>)
    requires |shape| >= 1 && forall k :: 0 <= k < |items| ==> Rectangular(items[k], shape[1..])
    requires i < |items| && InBox(shape[1..], idx)
    ensures i * Prod(shape[1..]) + RowMajor(shape[1..], idx) < |LeavesOf(items, shape)|
    ensures Leaf(items[i], idx) == Number(LeavesOf(items, shape)[i * Prod(shape[1..]) + RowMajor(shape[1..], idx)])
    decreases |shape|, 0, |items|
  {
    var k := Prod(shape[1..]);
    LeavesCount(items[0], shape[1..]);
    if i == 0 {
      LeafPosition(items[0], shape[1..], idx);
    } else {
      assert items[i] == items[1..][i - 1];
      LeafPositionIn(items[1..], shape, i - 1, idx);
      LaterPiece(Leaves(items[0], shape[1..]), LeavesOf(items[1..], shape), k, i, RowMajor(shape[1..], idx));
    }
  }

  lemma LaterPiece(a: seq<real>, b: seq<real>, k: nat, i: nat, r: nat)
    requires |a| == k && i >= 1 && (i - 1) * k + r < |b|
    ensures i * k + r < |a + b| && (a + b)[i * k + r] == b[(i - 1) * k + r]
  {
    assert i * k == k + (i - 1) * k;
  }

  /** The dimensions at the start of a visit: not seen yet, or as a sibling left them. */
  ghost predicate Ready(a: Flatten, shape: Shape, depth: nat) {
    depth <= |a.dims| && (|a.dims| == depth || a.dims[depth..] == shape)
  }

  /** The accumulators once numbers `xs` have been added by an array of this shape. */
  function Added(a: Flatten, xs: seq<real>, shape: Shape, depth: nat): Flatten
    requires depth <= |a.dims|
  {
    Flatten(a.values + xs, a.dims[..depth] + shape)
  }

  lemma {:induction false} FlattenedIs(j: Json, shape: Shape, a: Flatten, depth: nat)
    requires Rectangular(j, shape) && Ready(a, shape, depth)
    ensures Flattened(j, a, depth) == Some(Added(a, Leaves(j, shape), shape, depth))
    decreases |shape|, 1, 0
  {
    if shape != [] {
      var start := if |a.dims| <= depth then a.(dims := a.dims + [0]) else a;
      assert Ready(start, shape[1..], depth + 1) by {
        if |a.dims| > depth {
          assert a.dims[depth + 1..] == a.dims[depth..][1..];
        }
      }
      FlattenedItemsIs(j.items, shape, start, depth + 1);
      var r := start.dims[..depth + 1] + shape[1..];
      assert r[depth := |j.items|] == a.dims[..depth] + shape;
    } else {
      assert a.dims[..depth] + shape == a.dims;
    }
  }

  lemma AddedTwice(a: Flatten, xs: seq<real>, ys: seq<real>, shape: Shape, depth: nat)
    requires depth <= |a.dims|
    ensures var r := Added(a, xs, shape, depth);
            && |r.dims| == depth + |shape| && Ready(r, shape, depth)
            && Added(r, ys, shape, depth) == Added(a, xs + ys, shape, depth)
  {
    var r := Added(a, xs, shape, depth);
    assert r.dims[depth..] == shape && r.dims[..depth] == a.dims[..depth];
    assert a.values + xs + ys == a.values + (xs + ys);
  }

  lemma {:induction false} FlattenedItemsIs(items: seq<Json>, shape: Shape, a: Flatten, depth: nat)
    requires |shape| >= 1 && forall i :: 0 <= i < |items| ==> Rectangular(items[i], shape[1..])
    requires Ready(a, shape[1..], depth) && (items == [] ==> |a.dims| == depth + |shape| - 1)
    ensures FlattenedItems(items, a, depth) == Some(Added(a, LeavesOf(items, shape), shape[1..], depth))
    decreases |shape|, 0, |items|
  {
    if items == [] {
      assert a.dims[..depth] + shape[1..] == a.dims;
      assert a.values + LeavesOf(items, shape) == a.values;
    } else {
      TailRectangular(items, shape[1..]);
      var xs, ys := Leaves(items[0], shape[1..]), LeavesOf(items[1..], shape);
      FlattenedIs(items[0], shape[1..], a, depth);
      AddedTwice(a, xs, ys, shape[1..], depth);
      FlattenedItemsIs(items[1..], shape, Added(a, xs, shape[1..], depth), depth);
    }
  }

  /** Flattening a rectangular array from scratch: the dimensions from outer to inner,
      one value per index vector, each at its row-major position. */
  lemma FlattenRectangular(j: Json, shape: Shape)
    requires Rectangular(j, shape)
    ensures var r := Flattened(j, Flatten([], []), 0);
            && r.Some? && r.value.dims == shape && |r.value.values| == Prod(shape)
            && forall idx :: InBox(shape, idx) ==>
                 RowMajor(shape, idx) < |r.value.values|
                 && Leaf(j, idx) == Number(r.value.values[RowMajor(shape, idx)])
  {
    FlattenedIs(j, shape, Flatten([], []), 0);
    LeavesCount(j, shape);
    assert [] + Leaves(j, shape) == Leaves(j, shape);
    forall idx | InBox(shape, idx)
      ensures RowMajor(shape, idx) < Prod(shape)
      ensures Leaf(j, idx) == Number(Leaves(j, shape)[RowMajor(shape, idx)])
    {
      LeafPosition(j, shape, idx);
    }
  }

  // ------------------------------------------------------------ any array

  /** Nothing but arrays and numbers. */
  predicate OnlyNumbers(j: Json)
    decreases j
  {
    j.Number? || (j.Array? && forall i :: 0 <= i < |j.items| ==> OnlyNumbers(j.items[i]))
  }

  /** The numbers from left to right. */
  function AllNumbers(j: Json): seq<real>
    decreases j, 1
  {
    match j
    case Number(v) => [v]
    case Array(items) => AllNumbersOf(items)
    case _ => []
  }

  function AllNumbersOf(items: seq<Json>): seq<real>
    decreases items, 0
  {
    if items == [] then [] else AllNumbers(items[0]) + AllNumbersOf(items[1..])
  }

  /** Length of the last array at depth `d`, in reading order. */
  function LastAt(j: Json, d: nat): Option<nat>
    decreases j, 1
  {
    if !j.Array? then None
    else if d == 0 then Some(|j.items|)
    else LastAtOf(j.items, d - 1)
  }

  function LastAtOf(items: seq<Json>, d: nat): Option<nat>
    decreases items, 0
  {
    if items == [] then None
    else match LastAtOf(items[1..], d)
         case Some(n) => Some(n)
         case None => LastAt(items[0], d)
  }

  /** Dimension `i` after visiting `items` at `depth`: the length of the last array at
      its depth, or what it was before; `None` if there is none. */
  function DimAfter(before: seq<nat>, items: seq<Json>, depth: nat, i: nat): Option<nat> {
    if i >= depth && LastAtOf(items, i - depth).Some? then LastAtOf(items, i - depth)
    else if i < |before| then Some(before[i])
    else None
  }

  ghost predicate Overwritten(before: seq<nat>, after: seq<nat>, items: seq<Json>, depth: nat) {
    forall i: nat :: DimAfter(before, items, depth, i) == if i < |after| then Some(after[i]) else None
  }

  lemma {:induction false} FlattenedAny(j: Json, a: Flatten, depth: nat)
    requires depth <= |a.dims|
    ensures var r := Flattened(j, a, depth);
            && (r.Some? <==> OnlyNumbers(j))
            && (r.Some? ==> r.value.values == a.values + AllNumbers(j) && Overwritten(a.dims, r.value.dims, [j], depth))
    decreases j, 1
  {
    OnlyOne(j);
    if j.Array? {
      var start := if |a.dims| <= depth then a.(dims := a.dims + [0]) else a;
      FlattenedItemsAny(j.items, start, depth + 1);
      if OnlyNumbers(j) {
        VisitOverwrites(j, a.dims, start.dims, FlattenedItems(j.items, start, depth + 1).value.dims, depth);
      }
    }
  }

  lemma OnlyOne(j: Json)
    ensures forall d: nat :: LastAtOf([j], d) == LastAt(j, d)
  {
    assert [j][1..] == [];
  }

  lemma VisitOverwrites(j: Json, before: seq<nat>, start: seq<nat>, inner: seq<nat>, depth: nat)
    requires j.Array? && depth <= |before| && start == (if |before| <= depth then before + [0] else before)
    requires depth < |inner| && Overwritten(start, inner, j.items, depth + 1)
    ensures Overwritten(before, inner[depth := |j.items|], [j], depth)
  {
    OnlyOne(j);
    var after := inner[depth := |j.items|];
    forall i: nat
      ensures DimAfter(before, [j], depth, i) == if i < |after| then Some(after[i]) else None
    {
      assert DimAfter(start, j.items, depth + 1, i) == if i < |inner| then Some(inner[i]) else None;
      if i > depth {
        assert LastAt(j, i - depth) == LastAtOf(j.items, i - (depth + 1));
      }
    }
  }

  lemma AllOnly(items: seq<Json>)
    requires items != []
    ensures (forall i :: 0 <= i < |items| ==> OnlyNumbers(items[i]))
            <==> OnlyNumbers(items[0]) && forall i :: 0 <= i < |items[1..]| ==> OnlyNumbers(items[1..][i])
  {
    forall i | 0 < i < |items|
      ensures items[i] == items[1..][i - 1]
    {
    }
  }

  lemma {:induction false} FlattenedItemsAny(items: seq<Json>, a: Flatten, depth: nat)
    requires depth <= |a.dims|
    ensures var r := FlattenedItems(items, a, depth);
            && (r.Some? <==> forall i :: 0 <= i < |items| ==> OnlyNumbers(items[i]))
            && (r.Some? ==> r.value.values == a.values + AllNumbersOf(items)
                            && Overwritten(a.dims, r.value.dims, items, depth))
    decreases items, 0
  {
    if items != [] {
      FlattenedAny(items[0], a, depth);
      AllOnly(items);
      var first := Flattened(items[0], a, depth);
      if first.Some? {
        FlattenedItemsAny(items[1..], first.value, depth);
        var r := FlattenedItems(items[1..], first.value, depth);
        if r.Some? {
          ItemOverwrites(items, a.dims, first.value.dims, r.value.dims, depth);
        }
      }
    }
  }

  lemma ItemOverwrites(items: seq<Json>, before: seq<nat>, first: seq<nat>, after: seq<nat>, depth: nat)
    requires items != [] && Overwritten(before, first, [items[0]], depth) && Overwritten(first, after, items[1..], depth)
    ensures Overwritten(before, after, items, depth)
  {
    OnlyOne(items[0]);
    forall i: nat
      ensures DimAfter(before, items, depth, i) == if i < |after| then Some(after[i]) else None
    {
      assert DimAfter(before, [items[0]], depth, i) == if i < |first| then Some(first[i]) else None;
      assert DimAfter(first, items[1..], depth, i) == if i < |after| then Some(after[i]) else None;
    }
  }

  /** Extents along the first entries. */
  function ShapeOf(j: Json): Shape
    decreases j
  {
    if j.Array? && j.items != [] then [|j.items|] + ShapeOf(j.items[0]) else []
  }

  /** No empty array, and neighbours of one shape. */
  predicate Regular(j: Json)
    decreases j
  {
    j.Number? || (j.Array? && j.items != [] && forall i :: 0 <= i < |j.items| ==>
                    Regular(j.items[i]) && ShapeOf(j.items[i]) == ShapeOf(j.items[0]))
  }

  lemma {:induction false} RegularIsRectangular(j: Json)
    requires Regular(j)
    ensures Rectangular(j, ShapeOf(j))
    decreases j
  {
    if j.Array? {
      assert ShapeOf(j)[1..] == ShapeOf(j.items[0]);
      forall i | 0 <= i < |j.items|
        ensures Rectangular(j.items[i], ShapeOf(j)[1..])
      {
        RegularIsRectangular(j.items[i]);
      }
    }
  }

  lemma {:induction false} RectangularIsRegular(j: Json, shape: Shape)
    requires Rectangular(j, shape)
    ensures Regular(j) && ShapeOf(j) == shape
    decreases |shape|
  {
    if shape != [] {
      forall i | 0 <= i < |j.items|
        ensures Regular(j.items[i]) && ShapeOf(j.items[i]) == shape[1..]
      {
        RectangularIsRegular(j.items[i], shape[1..]);
      }
      assert shape == [shape[0]] + shape[1..];
    }
  }

  /** Any nested array of numbers is accepted: its numbers are kept in order, and each
      dimension is the length of the last array at that depth.  The dimensions describe
      the array exactly when it is regular. */
  lemma FlattenExact(j: Json)
    ensures var r := Flattened(j, Flatten([], []), 0);
            && (r.Some? <==> OnlyNumbers(j))
            && (r.Some? ==>
                  && r.value.values == AllNumbers(j)
                  && (forall d: nat :: LastAt(j, d) == if d < |r.value.dims| then Some(r.value.dims[d]) else None)
                  && (Rectangular(j, r.value.dims) <==> Regular(j)))
  {
    FlattenedAny(j, Flatten([], []), 0);
    var r := Flattened(j, Flatten([], []), 0);
    if r.Some? {
      assert [] + AllNumbers(j) == AllNumbers(j);
      OnlyOne(j);
      forall d: nat
        ensures LastAt(j, d) == if d < |r.value.dims| then Some(r.value.dims[d]) else None
      {
        assert DimAfter([], [j], 0, d) == LastAtOf([j], d - 0);
      }
      if Regular(j) {
        RegularIsRectangular(j);
        FlattenRectangular(j, ShapeOf(j));
      }
      if Rectangular(j, r.value.dims) {
        RectangularIsRegular(j, r.value.dims);
      }
    }
  }

  function NumberRow(xs: seq<real>): (items: seq<Json>)
    ensures |items| == |xs| && forall i :: 0 <= i < |xs| ==> items[i] == Number(xs[i])
  {
    seq(|xs|, i requires 0 <= i < |xs| => Number(xs[i]))
  }

  lemma {:induction false} RowNumbers(xs: seq<real>)
    ensures AllNumbersOf(NumberRow(xs)) == xs
    ensures forall d: nat :: LastAtOf(NumberRow(xs), d) == None
  {
    if xs != [] {
      RowNumbers(xs[1..]);
      assert NumberRow(xs)[1..] == NumberRow(xs[1..]);
      assert AllNumbers(NumberRow(xs)[0]) == [xs[0]];
      assert xs == [xs[0]] + xs[1..];
    }
  }

  function Rows(a: seq<real>, b: seq<real>, c: seq<real>): Json {
    Array([Array(NumberRow(a)), Array(NumberRow(b)), Array(NumberRow(c))])
  }

  lemma RowAt(xs: seq<real>)
    ensures OnlyNumbers(Array(NumberRow(xs))) && AllNumbers(Array(NumberRow(xs))) == xs
    ensures LastAt(Array(NumberRow(xs)), 0) == Some(|xs|) && LastAt(Array(NumberRow(xs)), 1) == None
  {
    RowNumbers(xs);
    assert LastAt(Array(NumberRow(xs)), 1) == LastAtOf(NumberRow(xs), 0);
  }

  lemma RowsAt(a: seq<real>, b: seq<real>, c: seq<real>)
    ensures var j := Rows(a, b, c);
            && OnlyNumbers(j) && AllNumbers(j) == a + b + c
            && LastAt(j, 0) == Some(3) && LastAt(j, 1) == Some(|c|) && LastAt(j, 2) == None
  {
    var j := Rows(a, b, c);
    RowAt(a);
    RowAt(b);
    RowAt(c);
    ThreeItems(j.items[0], j.items[1], j.items[2]);
    assert LastAt(j, 1) == LastAtOf(j.items, 0) && LastAt(j, 2) == LastAtOf(j.items, 1);
  }

  /** Three rows are taken for a matrix as wide as the last of them. */
  lemma ThreeRows(a: seq<real>, b: seq<real>, c: seq<real>)
    ensures Flattened(Rows(a, b, c), Flatten([], []), 0) == Some(Flatten(a + b + c, [3, |c|]))
  {
    RowsAt(a, b, c);
    FlattenExact(Rows(a, b, c));
    TwoDims(Rows(a, b, c), Flattened(Rows(a, b, c), Flatten([], []), 0).value.dims, 3, |c|);
  }

  lemma TwoDims(j: Json, dims: seq<nat>, m: nat, n: nat)
    requires forall d: nat :: LastAt(j, d) == if d < |dims| then Some(dims[d]) else None
    requires LastAt(j, 0) == Some(m) && LastAt(j, 1) == Some(n) && LastAt(j, 2) == None
    ensures dims == [m, n]
  {
  }

  lemma UnevenRows(a: seq<real>, b: seq<real>, c: seq<real>)
    requires a != [] && |a| != |b|
    ensures !Regular(Rows(a, b, c))
  {
    var j := Rows(a, b, c);
    assert ShapeOf(j.items[0])[0] == |a|;
    assert b != [] ==> ShapeOf(j.items[1])[0] == |b|;
  }

  lemma ThreeItems(x: Json, y: Json, z: Json)
    ensures AllNumbersOf([x, y, z]) == AllNumbers(x) + AllNumbers(y) + AllNumbers(z)
    ensures forall d: nat :: LastAtOf([x, y, z], d) ==
              if LastAt(z, d).Some? then LastAt(z, d) else if LastAt(y, d).Some? then LastAt(y, d) else LastAt(x, d)
  {
    assert [x, y, z][1..] == [y, z] && [y, z][1..] == [z] && [z][1..] == [];
    assert AllNumbersOf([z]) == AllNumbers(z) + [];
    assert AllNumbersOf([y, z]) == AllNumbers(y) + AllNumbers(z);
    OnlyOne(z);
    forall d: nat
      ensures LastAtOf([y, z], d) == if LastAt(z, d).Some? then LastAt(z, d) else LastAt(y, d)
    {
    }
  }

  /** Rows of 3, 1 and 2 numbers pass as 3 by 2: even the number of values agrees. */
  lemma RaggedPasses()
    ensures var j := Rows([1.0, 2.0, 3.0], [4.0], [5.0, 6.0]);
            && !Regular(j)
            && Flattened(j, Flatten([], []), 0) == Some(Flatten([1.0, 2.0, 3.0, 4.0, 5.0, 6.0], [3, 2]))
  {
    var a, b, c := [1.0, 2.0, 3.0], [4.0], [5.0, 6.0];
    ThreeRows(a, b, c);
    UnevenRows(a, b, c);
    assert a + b == [1.0, 2.0, 3.0, 4.0];
    assert [1.0, 2.0, 3.0, 4.0] + c == [1.0, 2.0, 3.0, 4.0, 5.0, 6.0];
  }
}
