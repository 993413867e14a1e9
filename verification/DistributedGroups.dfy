/** Partitioning ranks into masters (label 0) and worker groups (labels 1, 2, ...). */
module DistributedGroups {
  import opened Wrappers
  import Layout

  const UINT_LIMIT := 0x1_0000_0000

  type uint = x: int | 0 <= x < UINT_LIMIT

  /** The arguments the function does not reject, with its 32-bit sum. */
  predicate Accepted(size: uint, workers: uint, masters: uint, root: uint) {
    size >= (workers + masters) % UINT_LIMIT && workers != size && masters != size && root < size
  }

  /** The label of rank `i` before the root is moved. */
  function Label(size: uint, workers: uint, masters: uint, i: nat): nat {
    if workers == 0 && masters == 0 then i
    else if workers == 0 then (if i < masters then 0 else i - masters + 1)
    else if masters == 0 then
      (if 1 <= i < (size - 1) / workers * workers + 1 then (i - 1) % workers + 1 else 0)
    else (if i < masters then 0 else (i - masters) % workers + 1)
  }

  function Assigned(size: uint, workers: uint, masters: uint): (g: seq<nat>)
    ensures |g| == size
  {
    seq(size, i requires 0 <= i < size => Label(size, workers, masters, i))
  }

  function SwapRoot(g: seq<nat>, root: nat): (r: seq<nat>)
    requires root < |g|
    ensures |r| == |g|
  {
    if g[root] != g[0] then g[root := g[0]][0 := g[root]] else g
  }

  /** The labels of all ranks. */
  function Groups(size: uint, workers: uint, masters: uint, root: uint): (g: seq<nat>)
    requires root < size
    ensures |g| == size
  {
    SwapRoot(Assigned(size, workers, masters), root)
  }

  /** The four ways of labelling the ranks. */
  method AssignLabels(size: uint, workers: uint, masters: uint) returns (groups: array<nat>)
    requires size >= 2
    requires masters == 0 && workers >= 1 ==> workers < size
    ensures fresh(groups) && groups[..] == Assigned(size, workers, masters)
  {
    groups := new nat[size](_ => 0);
    if workers == 0 && masters == 0 {
      for i := 1 to size
        invariant forall k :: 0 <= k < i ==> groups[k] == Label(size, workers, masters, k)
      {
        groups[i] := i;
      }
    } else if workers == 0 {
      for i := if masters < size then masters else size to size
        invariant forall k :: 0 <= k < i ==> groups[k] == Label(size, workers, masters, k)
      {
        groups[i] := i - masters + 1;
      }
    } else if masters == 0 {
      var lastWorker := (size - 1) / workers * workers + 1;
      LastWorker(size - 1, workers);
      for i := 1 to lastWorker
        invariant forall k :: 0 <= k < i ==> groups[k] == Label(size, workers, masters, k)
        invariant forall k :: i <= k < size ==> groups[k] == 0
      {
        groups[i] := (i - 1) % workers + 1;
      }
    } else {
      for i := if masters < size then masters else size to size
        invariant forall k :: 0 <= k < i ==> groups[k] == Label(size, workers, masters, k)
      {
        groups[i] := (i - masters) % workers + 1;
      }
    }
  }

  method BuildGroups(size: uint, workers: uint, masters: uint, root: uint) returns (r: Option<array<nat>>)
    ensures size <= 1 ==> r.Some? && r.value[..] == [0]
    ensures size >= 2 ==> (r.Some? <==> Accepted(size, workers, masters, root))
    ensures size >= 2 ==> (r.None? <==> (workers + masters) % UINT_LIMIT > size
                                        || workers == size || masters == size || root >= size)
    ensures size >= 2 && r.Some? ==> r.value[..] == Groups(size, workers, masters, root)
  {
    if size <= 1 {
      var one := new nat[1](_ => 0);
      return Some(one);
    }
    if size < (workers + masters) % UINT_LIMIT {
      return None;
    }
    if workers == size || masters == size {
      return None;
    }
    if root >= size {
      return None;
    }
    var groups := AssignLabels(size, workers, masters);
    if groups[root] != groups[0] {
      groups[root], groups[0] := groups[0], groups[root];
    }
    return Some(groups);
  }

  lemma LastWorker(n: nat, w: nat)
    requires w >= 1
    ensures 0 <= n / w * w <= n && n - n / w * w == n % w
  {
    assert n == w * (n / w) + n % w;
  }

  // ------------------------------------------------------------- counting

  function Count(s: seq<nat>, v: nat): nat {
    if s == [] then 0 else Count(s[..|s| - 1], v) + (if s[|s| - 1] == v then 1 else 0)
  }

  lemma {:induction false} CountIsMultiplicity(s: seq<nat>, v: nat)
    ensures Count(s, v) == multiset(s)[v]
  {
    if s != [] {
      CountIsMultiplicity(s[..|s| - 1], v);
      assert s == s[..|s| - 1] + [s[|s| - 1]];
    }
  }

  /** Moving the root keeps the size of every group. */
  lemma SwapKeepsCounts(g: seq<nat>, root: nat, v: nat)
    requires root < |g|
    ensures Count(SwapRoot(g, root), v) == Count(g, v)
  {
    CountIsMultiplicity(g, v);
    CountIsMultiplicity(SwapRoot(g, root), v);
  }

  lemma {:induction false} CountConcat(a: seq<nat>, b: seq<nat>, v: nat)
    ensures Count(a + b, v) == Count(a, v) + Count(b, v)
  {
    if b == [] {
      assert a + b == a;
    } else {
      assert (a + b)[..|a + b| - 1] == a + b[..|b| - 1];
      CountConcat(a, b[..|b| - 1], v);
    }
  }

  lemma {:induction false} CountNone(s: seq<nat>, v: nat)
    requires v !in s
    ensures Count(s, v) == 0
  {
    if s != [] {
      CountNone(s[..|s| - 1], v);
    }
  }

  lemma {:induction false} CountAll(s: seq<nat>, v: nat)
    requires forall i :: 0 <= i < |s| ==> s[i] == v
    ensures Count(s, v) == |s|
  {
    if s != [] {
      CountAll(s[..|s| - 1], v);
    }
  }

  /** Dealing `n` ranks round-robin to `w` groups. */
  function Dealt(n: nat, w: nat): (s: seq<nat>)
    requires w >= 1
    ensures |s| == n
  {
    seq(n, i requires 0 <= i < n => i % w + 1)
  }

  lemma NextQuotient(n: nat, w: nat)
    requires w >= 1
    ensures if n % w + 1 < w then (n + 1) / w == n / w && (n + 1) % w == n % w + 1
            else (n + 1) / w == n / w + 1 && (n + 1) % w == 0
  {
    assert n == w * (n / w) + n % w;
    if n % w + 1 < w {
      Layout.DivModOfSum(n % w + 1, w, n / w);
    } else {
      Layout.Distrib(w, n / w, 1);
      Layout.DivModOfSum(0, w, n / w + 1);
    }
  }

  /** Members of group `g` when `n` ranks are dealt to `w` groups. */
  function Share(n: nat, w: nat, g: nat): nat
    requires w >= 1
  {
    n / w + (if g - 1 < n % w then 1 else 0)
  }

  lemma ShareStep(n: nat, w: nat, g: nat)
    requires w >= 1 && 1 <= g <= w
    ensures Share(n + 1, w, g) == Share(n, w, g) + (if n % w + 1 == g then 1 else 0)
  {
    NextQuotient(n, w);
  }

  lemma ShareStart(w: nat, g: nat)
    requires w >= 1 && 1 <= g
    ensures Share(0, w, g) == 0
  {
  }

  lemma DealtLast(n: nat, w: nat)
    requires n >= 1 && w >= 1
    ensures Dealt(n, w)[..n - 1] == Dealt(n - 1, w) && Dealt(n, w)[n - 1] == (n - 1) % w + 1
  {
  }

  lemma CountLast(s: seq<nat>, t: seq<nat>, last: nat, v: nat)
    requires |s| >= 1 && s[..|s| - 1] == t && s[|s| - 1] == last
    ensures Count(s, v) == Count(t, v) + (if last == v then 1 else 0)
  {
  }

  /** Round-robin groups differ by at most one member, the first ones being larger. */
  lemma {:induction false} DealtCounts(n: nat, w: nat, g: nat)
    requires w >= 1 && 1 <= g <= w
    ensures Count(Dealt(n, w), g) == Share(n, w, g)
  {
    if n == 0 {
      ShareStart(w, g);
      assert Dealt(0, w) == [];
    } else {
      DealtCounts(n - 1, w, g);
      DealtLast(n, w);
      CountLast(Dealt(n, w), Dealt(n - 1, w), (n - 1) % w + 1, g);
      ShareStep(n - 1, w, g);
    }
  }

  lemma DealtNoMaster(n: nat, w: nat)
    requires w >= 1
    ensures Count(Dealt(n, w), 0) == 0
  {
    CountNone(Dealt(n, w), 0);
  }

  function Masters(n: nat): (s: seq<nat>)
    ensures |s| == n
  {
    seq(n, i => 0)
  }

  lemma MastersCount(n: nat, g: nat)
    ensures Count(Masters(n), g) == if g == 0 then n else 0
  {
    if g == 0 {
      CountAll(Masters(n), 0);
    } else {
      CountNone(Masters(n), g);
    }
  }

  // ------------------------------------------------------------ the labels

  lemma RoundRobin(n: nat, w: nat)
    requires w >= 1
    ensures n < w ==> n % w == n
    ensures n >= w ==> n % w == (n - w) % w
  {
    if n < w {
      Layout.DivModOfSum(n, w, 0);
    } else {
      var m := n - w;
      var r, q := m % w, m / w;
      assert m == w * q + r;
      Layout.Distrib(w, q, 1);
      Layout.DivModOfSum(r, w, q + 1);
    }
  }

  /** Before the root is moved, with both counts given: the first ranks are the masters,
      the next ones open the worker groups in order, and each further rank joins the group
      of the rank one round before it. */
  lemma BothLabels(size: uint, workers: uint, masters: uint, i: nat)
    requires workers >= 1 && masters >= 1 && i < size
    ensures var g := Assigned(size, workers, masters);
            && (i < masters ==> g[i] == 0)
            && (masters <= i < masters + workers ==> g[i] == i - masters + 1)
            && (i >= masters + workers ==> g[i] == g[i - workers])
  {
    if i >= masters {
      RoundRobin(i - masters, workers);
    }
  }

  /** Only worker groups given: rank 0 is the master, the others are dealt out as long as
      there are enough for a full round, and the rest are masters too. */
  lemma WorkerLabels(size: uint, workers: uint, i: nat)
    requires 1 <= workers < size && i < size
    ensures var g, n := Assigned(size, workers, 0), size - 1 - (size - 1) % workers;
            && (i == 0 || i > n ==> g[i] == 0)
            && (1 <= i <= n && i <= workers ==> g[i] == i)
            && (workers < i <= n ==> g[i] == g[i - workers])
  {
    LastWorker(size - 1, workers);
    if i >= 1 {
      RoundRobin(i - 1, workers);
    }
  }

  /** No worker groups given: the ranks behind the masters are numbered in order. */
  lemma LoneLabels(size: uint, masters: uint, i: nat)
    requires i < size
    ensures var g, m := Assigned(size, 0, masters), if masters == 0 then 1 else masters;
            g[i] == if i < m then 0 else i - m + 1
  {
  }

  /** Moving the root exchanges it with rank 0 and leaves the other ranks alone. */
  lemma RootExchanged(size: uint, workers: uint, masters: uint, root: uint)
    requires root < size
    ensures var g, a := Groups(size, workers, masters, root), Assigned(size, workers, masters);
            && g[root] == a[0] && g[0] == a[root]
            && forall i :: 0 < i < size && i != root ==> g[i] == a[i]
  {
  }

  // ------------------------------------------------------------ guarantees

  /** The root is always a master. */
  lemma RootIsMaster(size: uint, workers: uint, masters: uint, root: uint)
    requires size >= 2 && Accepted(size, workers, masters, root)
    ensures Groups(size, workers, masters, root)[root] == 0
  {
  }

  lemma CountBoth(size: uint, workers: uint, masters: uint, root: uint, n: nat, v: nat)
    requires root < size && workers >= 1 && masters >= 1 && size == masters + n
    ensures Count(Groups(size, workers, masters, root), v) == Count(Masters(masters), v) + Count(Dealt(n, workers), v)
  {
    var a, parts := Assigned(size, workers, masters), Masters(masters) + Dealt(n, workers);
    forall i | 0 <= i < size
      ensures a[i] == parts[i]
    {
      if i >= masters {
        assert parts[i] == Dealt(n, workers)[i - masters];
      }
    }
    assert a == parts;
    SwapKeepsCounts(a, root, v);
    CountConcat(Masters(masters), Dealt(n, workers), v);
  }

  lemma CountMasters(size: uint, workers: uint, masters: uint, root: uint, n: nat)
    requires root < size && workers >= 1 && masters >= 1 && size == masters + n
    ensures Count(Groups(size, workers, masters, root), 0) == masters
  {
    CountBoth(size, workers, masters, root, n, 0);
    MastersCount(masters, 0);
    DealtNoMaster(n, workers);
  }

  lemma CountWorkers(size: uint, workers: uint, masters: uint, root: uint, n: nat, g: nat)
    requires root < size && workers >= 1 && masters >= 1 && size == masters + n && 1 <= g <= workers
    ensures Count(Groups(size, workers, masters, root), g) == Share(n, workers, g)
  {
    CountBoth(size, workers, masters, root, n, g);
    MastersCount(masters, g);
    DealtCounts(n, workers, g);
  }

  /** Both counts given: exactly that many masters, and worker groups that are never
      empty and differ by at most one member. */
  lemma BothCounts(size: uint, workers: uint, masters: uint, root: uint, g: nat)
    requires root < size && workers >= 1 && masters >= 1 && workers + masters <= size && 1 <= g <= workers
    ensures var groups := Groups(size, workers, masters, root);
            && Count(groups, 0) == masters
            && Count(groups, g) == Share(size - masters, workers, g) >= 1
  {
    CountMasters(size, workers, masters, root, size - masters);
    CountWorkers(size, workers, masters, root, size - masters, g);
    ShareAtLeastOnce(size - masters, workers, g);
  }

  lemma ShareAtLeastOnce(n: nat, w: nat, g: nat)
    requires 1 <= w <= n
    ensures Share(n, w, g) >= 1
  {
    AtLeastOnce(n, w);
  }

  lemma AtLeastOnce(n: nat, w: nat)
    requires 1 <= w <= n
    ensures n / w >= 1
  {
    assert n == w * (n / w) + n % w;
  }

  /** Number of ranks that work when only worker groups are given. */
  function WorkerRanks(size: uint, workers: uint): (n: nat)
    requires size >= 1 && workers >= 1
    ensures n <= size - 1 && size - 1 - n == (size - 1) % workers
    ensures n / workers == (size - 1) / workers && n % workers == 0
  {
    LastWorker(size - 1, workers);
    MultipleDivides((size - 1) / workers, workers);
    (size - 1) / workers * workers
  }

  lemma WorkersLayout(size: uint, workers: uint)
    requires 1 <= workers < size
    ensures var n := WorkerRanks(size, workers);
            Assigned(size, workers, 0) == Masters(1) + Dealt(n, workers) + Masters(size - 1 - n)
  {
    var n := WorkerRanks(size, workers);
    var parts := Masters(1) + Dealt(n, workers) + Masters(size - 1 - n);
    forall i | 0 <= i < size
      ensures Assigned(size, workers, 0)[i] == parts[i]
    {
      if 1 <= i < n + 1 {
        assert parts[i] == Dealt(n, workers)[i - 1];
      }
    }
  }

  lemma CountParts(size: uint, workers: uint, root: uint, v: nat)
    requires root < size && 1 <= workers < size
    ensures var n := WorkerRanks(size, workers);
            Count(Groups(size, workers, 0, root), v)
            == Count(Masters(1), v) + Count(Dealt(n, workers), v) + Count(Masters(size - 1 - n), v)
  {
    var n := WorkerRanks(size, workers);
    WorkersLayout(size, workers);
    SwapKeepsCounts(Assigned(size, workers, 0), root, v);
    CountConcat(Masters(1) + Dealt(n, workers), Masters(size - 1 - n), v);
    CountConcat(Masters(1), Dealt(n, workers), v);
  }

  /** Only worker groups given: all have exactly the same size, and whoever is left
      over becomes a master too. */
  lemma WorkersOnly(size: uint, workers: uint, root: uint, g: nat)
    requires root < size && 1 <= workers < size && 1 <= g <= workers
    ensures var groups := Groups(size, workers, 0, root);
            && Count(groups, g) == (size - 1) / workers >= 1
            && Count(groups, 0) == 1 + (size - 1) % workers
  {
    var n := WorkerRanks(size, workers);
    CountParts(size, workers, root, 0);
    CountParts(size, workers, root, g);
    MastersCount(1, 0);
    MastersCount(1, g);
    MastersCount(size - 1 - n, 0);
    MastersCount(size - 1 - n, g);
    DealtNoMaster(n, workers);
    DealtCounts(n, workers, g);
    AtLeastOnce(size - 1, workers);
  }

  lemma MultipleDivides(q: nat, w: nat)
    requires w >= 1
    ensures q * w / w == q && q * w % w == 0
  {
    Layout.DivModOfSum(0, w, q);
    assert q * w == w * q;
  }

  /** No worker groups given: every rank that is not a master works alone. */
  lemma LoneWorkers(size: uint, masters: uint, root: uint, g: nat)
    requires size >= 2 && root < size && masters < size
    ensures var groups, m := Groups(size, 0, masters, root), if masters == 0 then 1 else masters;
            && Count(groups, 0) == m
            && (1 <= g <= size - m ==> Count(groups, g) == 1)
            && (g > size - m ==> Count(groups, g) == 0)
  {
    var m: nat := if masters == 0 then 1 else masters;
    var rest: seq<nat> := seq(size - m, i => i + 1);
    var a := Assigned(size, 0, masters);
    assert a == Masters(m) + rest;
    forall v: nat
      ensures Count(Groups(size, 0, masters, root), v) == Count(Masters(m), v) + Count(rest, v)
    {
      SwapKeepsCounts(a, root, v);
      CountConcat(Masters(m), rest, v);
    }
    MastersCount(m, 0);
    MastersCount(m, g);
    CountIota(size - m, 0);
    CountIota(size - m, g);
  }

  lemma {:induction false} CountIota(n: nat, g: nat)
    ensures Count(seq(n, i => i + 1), g) == if 1 <= g <= n then 1 else 0
  {
    var s: seq<nat> := seq(n, i => i + 1);
    if n > 0 {
      CountIota(n - 1, g);
      assert s[..n - 1] == seq(n - 1, i => i + 1);
    }
  }

  // ------------------------------------------------- the guard's 32-bit sum

  function SumCounts(s: seq<nat>, n: nat): nat {
    if n == 0 then Count(s, 0) else SumCounts(s, n - 1) + Count(s, n)
  }

  lemma {:induction false} SumSnoc(s: seq<nat>, v: nat, n: nat)
    ensures SumCounts(s + [v], n) == SumCounts(s, n) + (if v <= n then 1 else 0)
  {
    assert (s + [v])[..|s|] == s;
    if n > 0 {
      SumSnoc(s, v, n - 1);
    }
  }

  lemma {:induction false} SumBounded(s: seq<nat>, n: nat)
    ensures SumCounts(s, n) <= |s|
  {
    if s == [] {
      SumNone(n);
    } else {
      SumBounded(s[..|s| - 1], n);
      SumSnoc(s[..|s| - 1], s[|s| - 1], n);
      assert s == s[..|s| - 1] + [s[|s| - 1]];
    }
  }

  lemma {:induction false} SumNone(n: nat)
    ensures SumCounts([], n) == 0
  {
    if n > 0 {
      SumNone(n - 1);
    }
  }

  lemma {:induction false} SumAtLeast(s: seq<nat>, n: nat)
    requires forall g: nat :: 1 <= g <= n ==> Count(s, g) >= 1
    ensures SumCounts(s, n) >= Count(s, 0) + n
  {
    if n > 0 {
      SumAtLeast(s, n - 1);
    }
  }

  /** What was asked for: that many masters, and no empty worker group. */
  ghost predicate Granted(groups: seq<nat>, workers: nat, masters: nat) {
    Count(groups, 0) == masters && forall g: nat :: 1 <= g <= workers ==> Count(groups, g) >= 1
  }

  lemma GrantedNeedsRoom(groups: seq<nat>, workers: nat, masters: nat)
    requires Granted(groups, workers, masters)
    ensures workers + masters <= |groups|
  {
    SumAtLeast(groups, workers);
    SumBounded(groups, workers);
  }

  /** The guard's sum is taken modulo 2^32.  What it lets through is granted exactly
      when the true sum fits the ranks. */
  lemma GrantedExact(size: uint, workers: uint, masters: uint, root: uint)
    requires size >= 2 && Accepted(size, workers, masters, root) && workers >= 1 && masters >= 1
    ensures Granted(Groups(size, workers, masters, root), workers, masters) <==> workers + masters <= size
  {
    var groups := Groups(size, workers, masters, root);
    if workers + masters <= size {
      BothCounts(size, workers, masters, root, 1);
      forall g: nat | 1 <= g <= workers
        ensures Count(groups, g) >= 1
      {
        BothCounts(size, workers, masters, root, g);
      }
    }
    if Granted(groups, workers, masters) {
      GrantedNeedsRoom(groups, workers, masters);
    }
  }

  /** A request of almost 2^32 groups that five ranks are said to satisfy. */
  lemma SumWraps()
    ensures Accepted(5, UINT_LIMIT - 1, 2, 0) && UINT_LIMIT - 1 + 2 > 5
  {
  }
}
