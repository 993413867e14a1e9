/** Replacing masked cells of a 2-D grid by blends of their nearest visible
    neighbours along the row and the column.  Arithmetic is over the reals. */
module MaskInterpolation {
  import opened Layout
  import opened NestedLoops
  import BasicIndexer

  /** Distance to a visible cell and its value; distance 0 when there is none. */
  datatype Neighbour = Neighbour(pos: nat, value: real)

  datatype Direction = Left | Right | Top | Bottom

  datatype Grid = Grid(nx: nat, ny: nat, input: seq<real>, mask: seq<nat>, fill: real)

  predicate WellFormed(g: Grid) {
    |g.input| == |g.mask| == Prod([g.nx, g.ny])
  }

  function Cell(g: Grid, i: nat, j: nat): nat {
    Flat([g.nx, g.ny], [i, j])
  }

  lemma CellInRange(g: Grid, i: nat, j: nat)
    requires WellFormed(g) && i < g.nx && j < g.ny
    ensures Cell(g, i, j) < |g.input| == |g.mask|
  {
    FlatInRange([g.nx, g.ny], [i, j]);
  }

  lemma CellInjective(g: Grid, i: nat, j: nat, i': nat, j': nat)
    requires i < g.nx && j < g.ny && i' < g.nx && j' < g.ny
    requires Cell(g, i, j) == Cell(g, i', j')
    ensures i == i' && j == j'
  {
    UnflatFlat([g.nx, g.ny], [i, j]);
    UnflatFlat([g.nx, g.ny], [i', j']);
    assert [i, j] == [i', j'];
    assert [i, j][0] == [i', j'][0] && [i, j][1] == [i', j'][1];
  }

  predicate Visible(g: Grid, i: nat, j: nat)
    requires WellFormed(g) && i < g.nx && j < g.ny
  {
    CellInRange(g, i, j);
    g.mask[Cell(g, i, j)] == 0
  }

  function Input(g: Grid, i: nat, j: nat): real
    requires WellFormed(g) && i < g.nx && j < g.ny
  {
    CellInRange(g, i, j);
    g.input[Cell(g, i, j)]
  }

  /** The cell in column `i` of row `j` is visible where the mask is 0; rows are `nx` long. */
  lemma VisibleExact(g: Grid, i: nat, j: nat)
    requires WellFormed(g) && i < g.nx && j < g.ny
    ensures i + g.nx * j < |g.mask| == |g.input|
    ensures Visible(g, i, j) <==> g.mask[i + g.nx * j] == 0
    ensures Input(g, i, j) == g.input[i + g.nx * j]
  {
    CellInRange(g, i, j);
    var dims, idx := [g.nx, g.ny], [i, j];
    assert dims[1..] == [g.ny] && idx[1..] == [j] && dims[1..][1..] == [] && idx[1..][1..] == [];
    assert Flat([g.ny], [j]) == j + g.ny * 0;
  }

  // -------------------------------------------------------- the four scans

  /** How many cells lie beyond `(i, j)` in a direction. */
  function Reach(g: Grid, i: nat, j: nat, d: Direction): nat
    requires i < g.nx && j < g.ny
  {
    match d
    case Left => i
    case Right => g.nx - 1 - i
    case Top => j
    case Bottom => g.ny - 1 - j
  }

  /** The cell `p` steps away. */
  function Toward(g: Grid, i: nat, j: nat, d: Direction, p: nat): (c: (nat, nat))
    requires i < g.nx && j < g.ny && p <= Reach(g, i, j, d)
    ensures c.0 < g.nx && c.1 < g.ny
  {
    match d
    case Left => (i - p, j)
    case Right => (i + p, j)
    case Top => (i, j - p)
    case Bottom => (i, j + p)
  }

  predicate VisibleAt(g: Grid, i: nat, j: nat, d: Direction, p: nat)
    requires WellFormed(g) && i < g.nx && j < g.ny && p <= Reach(g, i, j, d)
  {
    Visible(g, Toward(g, i, j, d, p).0, Toward(g, i, j, d, p).1)
  }

  function InputAt(g: Grid, i: nat, j: nat, d: Direction, p: nat): real
    requires WellFormed(g) && i < g.nx && j < g.ny && p <= Reach(g, i, j, d)
  {
    Input(g, Toward(g, i, j, d, p).0, Toward(g, i, j, d, p).1)
  }

  /** The first visible cell at distance `p` or more. */
  function NearestFrom(g: Grid, i: nat, j: nat, d: Direction, p: nat): Neighbour
    requires WellFormed(g) && i < g.nx && j < g.ny && p >= 1
    decreases Reach(g, i, j, d) + 1 - p
  {
    if p > Reach(g, i, j, d) then Neighbour(0, g.fill)
    else if VisibleAt(g, i, j, d, p) then Neighbour(p, InputAt(g, i, j, d, p))
    else NearestFrom(g, i, j, d, p + 1)
  }

  function Nearest(g: Grid, i: nat, j: nat, d: Direction): Neighbour
    requires WellFormed(g) && i < g.nx && j < g.ny
  {
    NearestFrom(g, i, j, d, 1)
  }

  lemma {:induction false} NearestIs(g: Grid, i: nat, j: nat, d: Direction, p: nat)
    requires WellFormed(g) && i < g.nx && j < g.ny && p >= 1
    ensures var n := NearestFrom(g, i, j, d, p);
            if n.pos == 0 then n.value == g.fill && forall q :: p <= q <= Reach(g, i, j, d) ==> !VisibleAt(g, i, j, d, q)
            else p <= n.pos <= Reach(g, i, j, d) && VisibleAt(g, i, j, d, n.pos) && n.value == InputAt(g, i, j, d, n.pos)
                 && forall q :: p <= q < n.pos ==> !VisibleAt(g, i, j, d, q)
    decreases Reach(g, i, j, d) + 1 - p
  {
    if p <= Reach(g, i, j, d) && !VisibleAt(g, i, j, d, p) {
      NearestIs(g, i, j, d, p + 1);
    }
  }

  method IndexOf(g: Grid, i: nat, j: nat) returns (idx: nat)
    ensures idx == Cell(g, i, j)
  {
    idx := BasicIndexer.Index([g.nx, g.ny], [i, j]);
  }

  /** One of the four scanning loops. */
  method Scan(g: Grid, i: nat, j: nat, d: Direction) returns (n: Neighbour)
    requires WellFormed(g) && i < g.nx && j < g.ny
    ensures n == Nearest(g, i, j, d)
  {
    var value, pos := g.fill, 0;
    var p := 1;
    while p <= Reach(g, i, j, d)
      invariant 1 <= p <= Reach(g, i, j, d) + 1 && value == g.fill && pos == 0
      invariant NearestFrom(g, i, j, d, p) == Nearest(g, i, j, d)
    {
      var c := Toward(g, i, j, d, p);
      CellInRange(g, c.0, c.1);
      var newIdx := IndexOf(g, c.0, c.1);
      if g.mask[newIdx] == 0 {
        pos := p;
        value := g.input[newIdx];
        return Neighbour(pos, value);
      }
      p := p + 1;
    }
    return Neighbour(pos, value);
  }

  // ------------------------------------------------------------ the blend

  function Lerp(a: real, b: real, t: real): real {
    a + t * (b - a)
  }

  function Ratio(p: nat, q: nat): (t: real)
    requires p >= 1 && q >= 1
  {
    p as real / (p + q) as real
  }

  /** Between two neighbours at distances `p` and `q` on either side. */
  function Between(x: Neighbour, y: Neighbour): real
    requires x.pos >= 1 && y.pos >= 1
  {
    Lerp(x.value, y.value, Ratio(x.pos, y.pos))
  }

  /** Two neighbours around a corner: each weighs in by the other's distance. */
  function Corner(x: Neighbour, y: Neighbour): real
    requires x.pos >= 1 && y.pos >= 1
  {
    x.value * y.pos as real / (y.pos + x.pos) as real + y.value * x.pos as real / (y.pos + x.pos) as real
  }

  /** The sixteen cases. */
  function Blend(l: Neighbour, r: Neighbour, t: Neighbour, b: Neighbour, fill: real): real {
    if l.pos != 0 then
      if r.pos != 0 then
        if t.pos != 0 && b.pos != 0 then
          Lerp(Between(l, r), Between(t, b), Ratio(t.pos + b.pos, l.pos + r.pos))
        else Between(l, r)
      else if t.pos != 0 then
        if b.pos != 0 then Between(t, b) else Corner(l, t)
      else if b.pos != 0 then Corner(l, b) else l.value
    else if r.pos != 0 then
      if t.pos != 0 then
        if b.pos != 0 then Between(t, b) else Corner(r, t)
      else if b.pos != 0 then Corner(r, b) else r.value
    else if t.pos != 0 then
      if b.pos != 0 then Between(t, b) else t.value
    else if b.pos != 0 then b.value else fill
  }

  function Output(g: Grid, i: nat, j: nat): real
    requires WellFormed(g) && i < g.nx && j < g.ny
  {
    if Visible(g, i, j) then Input(g, i, j)
    else Blend(Nearest(g, i, j, Left), Nearest(g, i, j, Right), Nearest(g, i, j, Top), Nearest(g, i, j, Bottom), g.fill)
  }

  // ------------------------------------------------------------- the sweep

  ghost predicate RowDone(g: Grid, out: seq<real>, j: nat, n: nat)
    requires WellFormed(g) && |out| == |g.input| && j < g.ny && n <= g.nx
  {
    forall i :: 0 <= i < n ==> CellDone(g, out, i, j)
  }

  ghost predicate CellDone(g: Grid, out: seq<real>, i: nat, j: nat)
    requires WellFormed(g) && |out| == |g.input| && i < g.nx && j < g.ny
  {
    CellInRange(g, i, j);
    out[Cell(g, i, j)] == Output(g, i, j)
  }

  /** Writing one finished cell keeps the others finished. */
  lemma WriteCell(g: Grid, out: seq<real>, i: nat, j: nat)
    requires WellFormed(g) && |out| == |g.input| && i < g.nx && j < g.ny
    ensures Cell(g, i, j) < |out|
    ensures var next := out[Cell(g, i, j) := Output(g, i, j)];
            && CellDone(g, next, i, j)
            && forall x, y :: 0 <= x < g.nx && 0 <= y < g.ny && CellDone(g, out, x, y) ==> CellDone(g, next, x, y)
  {
    CellInRange(g, i, j);
    var next := out[Cell(g, i, j) := Output(g, i, j)];
    forall x, y | 0 <= x < g.nx && 0 <= y < g.ny && CellDone(g, out, x, y)
      ensures CellDone(g, next, x, y)
    {
      CellInRange(g, x, y);
      if Cell(g, x, y) == Cell(g, i, j) {
        CellInjective(g, x, y, i, j);
        assert Output(g, x, y) == Output(g, i, j);
      } else {
        assert next[Cell(g, x, y)] == out[Cell(g, x, y)];
      }
    }
  }

  method Row(g: Grid, output: array<real>, j: nat)
    requires WellFormed(g) && output.Length == |g.input| && j < g.ny
    modifies output
    ensures RowDone(g, output[..], j, g.nx)
    ensures forall y :: 0 <= y < g.ny && RowDone(g, old(output[..]), y, g.nx) ==> RowDone(g, output[..], y, g.nx)
  {
    for i := 0 to g.nx
      invariant RowDone(g, output[..], j, i)
      invariant forall y :: 0 <= y < g.ny && RowDone(g, old(output[..]), y, g.nx) ==> RowDone(g, output[..], y, g.nx)
    {
      CellInRange(g, i, j);
      WriteCell(g, output[..], i, j);
      var idx := IndexOf(g, i, j);
      if g.mask[idx] == 0 {
        output[idx] := g.input[idx];
      } else {
        var l := Scan(g, i, j, Left);
        var r := Scan(g, i, j, Right);
        var t := Scan(g, i, j, Top);
        var b := Scan(g, i, j, Bottom);
        output[idx] := Blend(l, r, t, b, g.fill);
      }
    }
  }

  /** The 2-D branch; the rows are taken in any order that covers them. */
  method InterpApplyMask(g: Grid, output: array<real>, schedule: seq<nat>)
    requires WellFormed(g) && output.Length == |g.input| && Covers(schedule, g.ny)
    modifies output
    ensures forall i, j :: 0 <= i < g.nx && 0 <= j < g.ny ==> CellDone(g, output[..], i, j)
  {
    for n := 0 to |schedule|
      invariant forall k :: 0 <= k < n ==> RowDone(g, output[..], schedule[k], g.nx)
    {
      Row(g, output, schedule[n]);
    }
    forall i, j | 0 <= i < g.nx && 0 <= j < g.ny
      ensures CellDone(g, output[..], i, j)
    {
      var y: nat := j;
      assert y in schedule;
      assert RowDone(g, output[..], j, g.nx);
    }
  }

  // ---------------------------------------------------------- guarantees

  lemma TimesNonNegative(x: real, y: real)
    requires x >= 0.0 && y >= 0.0
    ensures x * y >= 0.0
  {
  }

  lemma LerpHull(a: real, b: real, t: real, lo: real, hi: real)
    requires 0.0 <= t <= 1.0 && lo <= a <= hi && lo <= b <= hi
    ensures lo <= Lerp(a, b, t) <= hi
  {
    if a <= b {
      TimesNonNegative(t, b - a);
      TimesNonNegative(1.0 - t, b - a);
    } else {
      TimesNonNegative(t, a - b);
      TimesNonNegative(1.0 - t, a - b);
    }
  }

  lemma QuotientUnit(x: real, y: real)
    requires 0.0 <= x <= y && y > 0.0
    ensures 0.0 <= x / y <= 1.0
  {
  }

  lemma RatioUnit(p: nat, q: nat)
    requires p >= 1 && q >= 1
    ensures 0.0 <= Ratio(p, q) <= 1.0
    ensures Ratio(p, q) * (p + q) as real == p as real
  {
    QuotientUnit(p as real, (p + q) as real);
  }

  lemma DivideProduct(a: real, b: real, y: real)
    requires y > 0.0
    ensures a * b / y == a * (b / y)
  {
    var q := b / y;
    assert q * y == b;
    assert a * b == a * q * y;
    assert a * q * y / y == a * q;
  }

  lemma SharesAddUp(p: real, q: real, n: real)
    requires n > 0.0 && n == p + q
    ensures p / n + q / n == 1.0
  {
    assert (p + q) / n == 1.0;
  }

  lemma LerpOfShares(a: real, b: real, s: real, t: real)
    requires s + t == 1.0
    ensures a * s + b * t == Lerp(a, b, t)
  {
    assert s == 1.0 - t;
    assert a * (1.0 - t) == a - a * t;
  }

  /** Around a corner is a linear interpolation too. */
  lemma CornerIsLerp(x: Neighbour, y: Neighbour)
    requires x.pos >= 1 && y.pos >= 1
    ensures Corner(x, y) == Lerp(x.value, y.value, Ratio(x.pos, y.pos))
  {
    var n := (y.pos + x.pos) as real;
    DivideProduct(x.value, y.pos as real, n);
    DivideProduct(y.value, x.pos as real, n);
    SharesAddUp(y.pos as real, x.pos as real, n);
    LerpOfShares(x.value, y.value, y.pos as real / n, x.pos as real / n);
  }

  /** A neighbour that exists has a value within the bounds. */
  predicate Bounded(n: Neighbour, lo: real, hi: real) {
    n.pos >= 1 ==> lo <= n.value <= hi
  }

  /** In all sixteen cases the blend lies between the least and the greatest of the
      neighbours there are; without any it is the fill. */
  lemma BlendHull(l: Neighbour, r: Neighbour, t: Neighbour, b: Neighbour, fill: real, lo: real, hi: real)
    requires Bounded(l, lo, hi) && Bounded(r, lo, hi) && Bounded(t, lo, hi) && Bounded(b, lo, hi)
    ensures l.pos + r.pos + t.pos + b.pos >= 1 ==> lo <= Blend(l, r, t, b, fill) <= hi
    ensures l.pos + r.pos + t.pos + b.pos == 0 ==> Blend(l, r, t, b, fill) == fill
  {
    PairHull(l, r, lo, hi);
    PairHull(t, b, lo, hi);
    PairHull(l, t, lo, hi);
    PairHull(l, b, lo, hi);
    PairHull(r, t, lo, hi);
    PairHull(r, b, lo, hi);
    if l.pos != 0 && r.pos != 0 && t.pos != 0 && b.pos != 0 {
      RatioUnit(t.pos + b.pos, l.pos + r.pos);
      LerpHull(Between(l, r), Between(t, b), Ratio(t.pos + b.pos, l.pos + r.pos), lo, hi);
    }
  }

  lemma PairHull(x: Neighbour, y: Neighbour, lo: real, hi: real)
    requires Bounded(x, lo, hi) && Bounded(y, lo, hi)
    ensures x.pos >= 1 && y.pos >= 1 ==> lo <= Between(x, y) <= hi && lo <= Corner(x, y) <= hi
  {
    if x.pos >= 1 && y.pos >= 1 {
      RatioUnit(x.pos, y.pos);
      LerpHull(x.value, y.value, Ratio(x.pos, y.pos), lo, hi);
      CornerIsLerp(x, y);
    }
  }

  /** In coordinates: the neighbours are the nearest visible cells of the row and the
      column, on either side. */
  lemma LeftNeighbour(g: Grid, i: nat, j: nat)
    requires WellFormed(g) && i < g.nx && j < g.ny
    ensures var n := Nearest(g, i, j, Left);
            && n.pos <= i && (forall x: nat :: i - n.pos < x < i ==> !Visible(g, x, j))
            && (n.pos == 0 ==> forall x: nat :: x < i ==> !Visible(g, x, j))
            && (n.pos >= 1 ==> Visible(g, i - n.pos, j) && n.value == Input(g, i - n.pos, j))
  {
    NearestIs(g, i, j, Left, 1);
    var n := Nearest(g, i, j, Left);
    forall x: nat | x < i && (n.pos == 0 || i - x < n.pos)
      ensures !Visible(g, x, j)
    {
      assert !VisibleAt(g, i, j, Left, i - x);
    }
  }

  lemma RightNeighbour(g: Grid, i: nat, j: nat)
    requires WellFormed(g) && i < g.nx && j < g.ny
    ensures var n := Nearest(g, i, j, Right);
            && i + n.pos < g.nx && (forall x: nat :: i < x < i + n.pos ==> !Visible(g, x, j))
            && (n.pos == 0 ==> forall x: nat :: i < x < g.nx ==> !Visible(g, x, j))
            && (n.pos >= 1 ==> Visible(g, i + n.pos, j) && n.value == Input(g, i + n.pos, j))
  {
    NearestIs(g, i, j, Right, 1);
    var n := Nearest(g, i, j, Right);
    forall x: nat | i < x < g.nx && (n.pos == 0 || x - i < n.pos)
      ensures !Visible(g, x, j)
    {
      assert !VisibleAt(g, i, j, Right, x - i);
    }
  }

  lemma TopNeighbour(g: Grid, i: nat, j: nat)
    requires WellFormed(g) && i < g.nx && j < g.ny
    ensures var n := Nearest(g, i, j, Top);
            && n.pos <= j && (forall y: nat :: j - n.pos < y < j ==> !Visible(g, i, y))
            && (n.pos == 0 ==> forall y: nat :: y < j ==> !Visible(g, i, y))
            && (n.pos >= 1 ==> Visible(g, i, j - n.pos) && n.value == Input(g, i, j - n.pos))
  {
    NearestIs(g, i, j, Top, 1);
    var n := Nearest(g, i, j, Top);
    forall y: nat | y < j && (n.pos == 0 || j - y < n.pos)
      ensures !Visible(g, i, y)
    {
      assert !VisibleAt(g, i, j, Top, j - y);
    }
  }

  lemma BottomNeighbour(g: Grid, i: nat, j: nat)
    requires WellFormed(g) && i < g.nx && j < g.ny
    ensures var n := Nearest(g, i, j, Bottom);
            && j + n.pos < g.ny && (forall y: nat :: j < y < j + n.pos ==> !Visible(g, i, y))
            && (n.pos == 0 ==> forall y: nat :: j < y < g.ny ==> !Visible(g, i, y))
            && (n.pos >= 1 ==> Visible(g, i, j + n.pos) && n.value == Input(g, i, j + n.pos))
  {
    NearestIs(g, i, j, Bottom, 1);
    var n := Nearest(g, i, j, Bottom);
    forall y: nat | j < y < g.ny && (n.pos == 0 || y - j < n.pos)
      ensures !Visible(g, i, y)
    {
      assert !VisibleAt(g, i, j, Bottom, y - j);
    }
  }

  /** Some other cell of the row or the column is visible. */
  ghost predicate SomeNeighbour(g: Grid, i: nat, j: nat)
    requires WellFormed(g) && i < g.nx && j < g.ny
  {
    || (exists x: nat :: x < g.nx && x != i && Visible(g, x, j))
    || (exists y: nat :: y < g.ny && y != j && Visible(g, i, y))
  }

  lemma NeighbourExists(g: Grid, i: nat, j: nat)
    requires WellFormed(g) && i < g.nx && j < g.ny
    ensures SomeNeighbour(g, i, j) <==> exists d :: Nearest(g, i, j, d).pos >= 1
  {
    LeftNeighbour(g, i, j);
    RightNeighbour(g, i, j);
    TopNeighbour(g, i, j);
    BottomNeighbour(g, i, j);
  }

  /** Visible cells keep their value; a masked cell stays within any bounds on its
      nearest visible neighbours, and gets the fill exactly when there are none. */
  lemma OutputInHull(g: Grid, i: nat, j: nat, lo: real, hi: real)
    requires WellFormed(g) && i < g.nx && j < g.ny
    requires forall d :: Bounded(Nearest(g, i, j, d), lo, hi)
    ensures Visible(g, i, j) ==> Output(g, i, j) == Input(g, i, j)
    ensures !Visible(g, i, j) && SomeNeighbour(g, i, j) ==> lo <= Output(g, i, j) <= hi
    ensures !Visible(g, i, j) && !SomeNeighbour(g, i, j) ==> Output(g, i, j) == g.fill
  {
    var l, r := Nearest(g, i, j, Left), Nearest(g, i, j, Right);
    var t, b := Nearest(g, i, j, Top), Nearest(g, i, j, Bottom);
    BlendHull(l, r, t, b, g.fill, lo, hi);
    NeighbourExists(g, i, j);
    if SomeNeighbour(g, i, j) {
      var d :| Nearest(g, i, j, d).pos >= 1;
      assert d in {Left, Right, Top, Bottom};
    } else {
      assert l.pos == 0 && r.pos == 0 && t.pos == 0 && b.pos == 0;
    }
  }

  // --------------------------------------------------------- the weights

  lemma LerpWeights(x: real, y: real, t: real, p: real, q: real)
    requires t * (p + q) == p
    ensures Lerp(x, y, t) * (p + q) == x * q + y * p
  {
    assert t * (y - x) * (p + q) == (t * (p + q)) * (y - x);
    assert x * (p + q) == x * p + x * q;
  }

  /** Two values weighted each by the other's distance, multiplied out. */
  predicate MeanOfTwo(out: real, x: Neighbour, y: Neighbour) {
    out * (x.pos + y.pos) as real == x.value * y.pos as real + y.value * x.pos as real
  }

  /** Four values weighted each by the opposite one's distance, multiplied out. */
  predicate MeanOfFour(out: real, l: Neighbour, r: Neighbour, t: Neighbour, b: Neighbour) {
    out * (l.pos + r.pos + t.pos + b.pos) as real
    == l.value * r.pos as real + r.value * l.pos as real + t.value * b.pos as real + b.value * t.pos as real
  }

  lemma PairMean(x: Neighbour, y: Neighbour)
    requires x.pos >= 1 && y.pos >= 1
    ensures MeanOfTwo(Between(x, y), x, y) && MeanOfTwo(Corner(x, y), x, y)
  {
    RatioUnit(x.pos, y.pos);
    LerpWeights(x.value, y.value, Ratio(x.pos, y.pos), x.pos as real, y.pos as real);
    CornerIsLerp(x, y);
  }

  lemma MeanOfMeans(x: real, y: real, p: nat, q: nat)
    requires p >= 1 && q >= 1
    ensures Lerp(x, y, Ratio(q, p)) * (p + q) as real == x * p as real + y * q as real
  {
    RatioUnit(q, p);
    LerpWeights(x, y, Ratio(q, p), q as real, p as real);
  }

  lemma FourMean(l: Neighbour, r: Neighbour, t: Neighbour, b: Neighbour)
    requires l.pos >= 1 && r.pos >= 1 && t.pos >= 1 && b.pos >= 1
    ensures MeanOfFour(Lerp(Between(l, r), Between(t, b), Ratio(t.pos + b.pos, l.pos + r.pos)), l, r, t, b)
  {
    PairMean(l, r);
    PairMean(t, b);
    MeanOfMeans(Between(l, r), Between(t, b), l.pos + r.pos, t.pos + b.pos);
  }

  /** The value of a masked cell, by which of its neighbours exist: the weighted mean of
      all four, of the pair across where one axis has both, of the two around the corner
      where each axis has one; the value of a lone neighbour; or the fill. */
  predicate Weighed(out: real, l: Neighbour, r: Neighbour, t: Neighbour, b: Neighbour, fill: real) {
    var row, column := if l.pos >= 1 then l else r, if t.pos >= 1 then t else b;
    if l.pos >= 1 && r.pos >= 1 && t.pos >= 1 && b.pos >= 1 then MeanOfFour(out, l, r, t, b)
    else if l.pos >= 1 && r.pos >= 1 then MeanOfTwo(out, l, r)
    else if t.pos >= 1 && b.pos >= 1 then MeanOfTwo(out, t, b)
    else if row.pos >= 1 && column.pos >= 1 then MeanOfTwo(out, row, column)
    else out == if row.pos >= 1 then row.value else if column.pos >= 1 then column.value else fill
  }

  lemma BlendWeighed(l: Neighbour, r: Neighbour, t: Neighbour, b: Neighbour, fill: real)
    ensures Weighed(Blend(l, r, t, b, fill), l, r, t, b, fill)
  {
    var row, column := if l.pos >= 1 then l else r, if t.pos >= 1 then t else b;
    if l.pos >= 1 && r.pos >= 1 && t.pos >= 1 && b.pos >= 1 {
      FourMean(l, r, t, b);
    } else if l.pos >= 1 && r.pos >= 1 {
      PairMean(l, r);
    } else if t.pos >= 1 && b.pos >= 1 {
      PairMean(t, b);
    } else if row.pos >= 1 && column.pos >= 1 {
      PairMean(row, column);
    }
  }

  /** Every masked cell gets the weighted mean of its neighbours. */
  lemma OutputWeights(g: Grid, i: nat, j: nat)
    requires WellFormed(g) && i < g.nx && j < g.ny && !Visible(g, i, j)
    ensures Weighed(Output(g, i, j), Nearest(g, i, j, Left), Nearest(g, i, j, Right),
                    Nearest(g, i, j, Top), Nearest(g, i, j, Bottom), g.fill)
  {
    BlendWeighed(Nearest(g, i, j, Left), Nearest(g, i, j, Right),
                 Nearest(g, i, j, Top), Nearest(g, i, j, Bottom), g.fill);
  }

  /** A neighbour of value 0 on the left and one of value 10 above, both next to the
      cell, and none on the other sides: the cell gets 5. */
  lemma CornerOfTwo(g: Grid, i: nat, j: nat)
    requires WellFormed(g) && i < g.nx && j < g.ny && !Visible(g, i, j)
    requires Nearest(g, i, j, Left) == Neighbour(1, 0.0) && Nearest(g, i, j, Top) == Neighbour(1, 10.0)
    requires Nearest(g, i, j, Right).pos == 0 && Nearest(g, i, j, Bottom).pos == 0
    ensures Output(g, i, j) == 5.0
  {
    OutputWeights(g, i, j);
  }

  // ----------------------------------------------- exact on linear fields

  lemma LerpExact(x: real, y: real, p: real, q: real, t: real, v: real, slope: real)
    requires x == v - slope * p && y == v + slope * q && t * (p + q) == p
    ensures Lerp(x, y, t) == v
  {
    assert y - x == slope * (p + q);
    assert t * (slope * (p + q)) == slope * (t * (p + q));
  }

  lemma BetweenExact(x: Neighbour, y: Neighbour, v: real, slope: real)
    requires x.pos >= 1 && y.pos >= 1
    requires x.value == v - slope * x.pos as real && y.value == v + slope * y.pos as real
    ensures Between(x, y) == v
  {
    RatioUnit(x.pos, y.pos);
    LerpExact(x.value, y.value, x.pos as real, y.pos as real, Ratio(x.pos, y.pos), v, slope);
  }

  function Field(c: real, a: real, b: real, i: int, j: int): real {
    c + a * i as real + b * j as real
  }

  lemma FieldSteps(c: real, a: real, b: real, i: int, j: int, p: int)
    ensures Field(c, a, b, i - p, j) == Field(c, a, b, i, j) - a * p as real
    ensures Field(c, a, b, i + p, j) == Field(c, a, b, i, j) + a * p as real
    ensures Field(c, a, b, i, j - p) == Field(c, a, b, i, j) - b * p as real
    ensures Field(c, a, b, i, j + p) == Field(c, a, b, i, j) + b * p as real
  {
    Slope(a, i, p, i - p);
    Slope(a, i + p, p, i);
    Slope(b, j, p, j - p);
    Slope(b, j + p, p, j);
  }

  /** The input follows a linear field at its visible cells. */
  ghost predicate Linear(g: Grid, c: real, a: real, b: real)
    requires WellFormed(g)
  {
    forall i, j :: 0 <= i < g.nx && 0 <= j < g.ny && Visible(g, i, j) ==>
      Input(g, i, j) == Field(c, a, b, i, j)
  }

  /** Where the visible cells follow a linear field, a masked cell between two visible
      ones, in its row or in its column, gets the value of that field. */
  lemma LinearReproduced(g: Grid, c: real, a: real, b: real, i: nat, j: nat)
    requires WellFormed(g) && Linear(g, c, a, b) && i < g.nx && j < g.ny && !Visible(g, i, j)
    requires (Nearest(g, i, j, Left).pos >= 1 && Nearest(g, i, j, Right).pos >= 1)
             || (Nearest(g, i, j, Top).pos >= 1 && Nearest(g, i, j, Bottom).pos >= 1)
    ensures Output(g, i, j) == Field(c, a, b, i, j)
  {
    var v := Field(c, a, b, i, j);
    var l, r := Nearest(g, i, j, Left), Nearest(g, i, j, Right);
    var t, m := Nearest(g, i, j, Top), Nearest(g, i, j, Bottom);
    if l.pos >= 1 && r.pos >= 1 {
      RowExact(g, c, a, b, i, j);
    }
    if t.pos >= 1 && m.pos >= 1 {
      ColumnExact(g, c, a, b, i, j);
    }
    if l.pos >= 1 && r.pos >= 1 && t.pos >= 1 && m.pos >= 1 {
      LerpSame(v, Ratio(t.pos + m.pos, l.pos + r.pos));
    }
  }

  lemma LerpSame(v: real, t: real)
    ensures Lerp(v, v, t) == v
  {
  }

  lemma BetweenInRow(x: Neighbour, y: Neighbour, c: real, a: real, b: real, i: int, j: int)
    requires x.pos >= 1 && y.pos >= 1
    requires x.value == Field(c, a, b, i - x.pos, j) && y.value == Field(c, a, b, i + y.pos, j)
    ensures Between(x, y) == Field(c, a, b, i, j)
  {
    FieldSteps(c, a, b, i, j, x.pos);
    FieldSteps(c, a, b, i, j, y.pos);
    BetweenExact(x, y, Field(c, a, b, i, j), a);
  }

  lemma BetweenInColumn(x: Neighbour, y: Neighbour, c: real, a: real, b: real, i: int, j: int)
    requires x.pos >= 1 && y.pos >= 1
    requires x.value == Field(c, a, b, i, j - x.pos) && y.value == Field(c, a, b, i, j + y.pos)
    ensures Between(x, y) == Field(c, a, b, i, j)
  {
    FieldSteps(c, a, b, i, j, x.pos);
    FieldSteps(c, a, b, i, j, y.pos);
    BetweenExact(x, y, Field(c, a, b, i, j), b);
  }

  lemma NeighbourOnField(g: Grid, c: real, a: real, b: real, i: nat, j: nat, d: Direction)
    requires WellFormed(g) && Linear(g, c, a, b) && i < g.nx && j < g.ny
    requires Nearest(g, i, j, d).pos >= 1
    ensures var n := Nearest(g, i, j, d);
            && n.pos <= Reach(g, i, j, d)
            && n.value == Field(c, a, b, Toward(g, i, j, d, n.pos).0, Toward(g, i, j, d, n.pos).1)
  {
    NearestIs(g, i, j, d, 1);
  }

  lemma RowExact(g: Grid, c: real, a: real, b: real, i: nat, j: nat)
    requires WellFormed(g) && Linear(g, c, a, b) && i < g.nx && j < g.ny
    requires Nearest(g, i, j, Left).pos >= 1 && Nearest(g, i, j, Right).pos >= 1
    ensures Between(Nearest(g, i, j, Left), Nearest(g, i, j, Right)) == Field(c, a, b, i, j)
  {
    var l, r := Nearest(g, i, j, Left), Nearest(g, i, j, Right);
    NeighbourOnField(g, c, a, b, i, j, Left);
    NeighbourOnField(g, c, a, b, i, j, Right);
    BetweenInRow(l, r, c, a, b, i, j);
  }

  lemma ColumnExact(g: Grid, c: real, a: real, b: real, i: nat, j: nat)
    requires WellFormed(g) && Linear(g, c, a, b) && i < g.nx && j < g.ny
    requires Nearest(g, i, j, Top).pos >= 1 && Nearest(g, i, j, Bottom).pos >= 1
    ensures Between(Nearest(g, i, j, Top), Nearest(g, i, j, Bottom)) == Field(c, a, b, i, j)
  {
    var t, m := Nearest(g, i, j, Top), Nearest(g, i, j, Bottom);
    NeighbourOnField(g, c, a, b, i, j, Top);
    NeighbourOnField(g, c, a, b, i, j, Bottom);
    BetweenInColumn(t, m, c, a, b, i, j);
  }

  lemma Slope(s: real, x: int, p: int, y: int)
    requires y == x - p
    ensures s * y as real == s * x as real - s * p as real
  {
    assert y as real == x as real - p as real;
  }
}
