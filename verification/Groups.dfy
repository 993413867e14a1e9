/** Mapping input and output buffers to the groups of a meta-compressor: labels are
    normalised and validated, groups are gathered, and results are scattered back. */
module Groups {

  /** How many of the first `i` labels are `g`. */
  function CountBefore(labels: seq<int>, g: int, i: nat): nat
    requires i <= |labels|
  {
    if i == 0 then 0 else CountBefore(labels, g, i - 1) + (if labels[i - 1] == g then 1 else 0)
  }

  function GroupSize(labels: seq<int>, g: int): nat {
    CountBefore(labels, g, |labels|)
  }

  /** Position of slot `i` within its own group. */
  function Rank(labels: seq<int>, i: nat): nat
    requires i < |labels|
  {
    CountBefore(labels, labels[i], i)
  }

  lemma {:induction false} CountMonotone(labels: seq<int>, g: int, i: nat, j: nat)
    requires i <= j <= |labels|
    ensures CountBefore(labels, g, i) <= CountBefore(labels, g, j)
  {
    if i < j {
      CountMonotone(labels, g, i, j - 1);
    }
  }

  /** Ranks stay below the group size and tell the slots of a group apart. */
  lemma RankBelow(labels: seq<int>, i: nat)
    requires i < |labels|
    ensures Rank(labels, i) < GroupSize(labels, labels[i])
  {
    CountMonotone(labels, labels[i], i + 1, |labels|);
  }

  lemma RanksDiffer(labels: seq<int>, i: nat, j: nat)
    requires i < j < |labels| && labels[i] == labels[j]
    ensures Rank(labels, i) < Rank(labels, j)
  {
    CountMonotone(labels, labels[i], i + 1, j);
  }

  /** The slots of a group among the first `i`. */
  function Members(labels: seq<int>, g: int, i: nat): (s: set<nat>)
    requires i <= |labels|
    ensures forall k: nat :: k in s <==> k < i && labels[k] == g
  {
    set k: nat | k < i && labels[k] == g
  }

  lemma MembersStep(labels: seq<int>, g: int, i: nat)
    requires i < |labels|
    ensures Members(labels, g, i + 1) == Members(labels, g, i) + (if labels[i] == g then {i} else {})
  {
  }

  /** The rank of a slot is the number of slots of its group before it. */
  lemma {:induction false} CountIsSize(labels: seq<int>, g: int, i: nat)
    requires i <= |labels|
    ensures CountBefore(labels, g, i) == |Members(labels, g, i)|
  {
    if i > 0 {
      CountIsSize(labels, g, i - 1);
      MembersStep(labels, g, i - 1);
    } else {
      assert Members(labels, g, 0) == {};
    }
  }

  // ------------------------------------------------------------- gathering

  function Gather<T>(items: seq<T>, g: int, labels: seq<int>): (group: seq<T>)
    requires |items| == |labels|
  {
    if items == [] then []
    else Gather(items[..|items| - 1], g, labels[..|items| - 1])
         + (if labels[|items| - 1] == g then [items[|items| - 1]] else [])
  }

  method MakeDataGroup<T>(items: seq<T>, g: int, labels: seq<int>) returns (group: seq<T>)
    requires |items| == |labels|
    ensures group == Gather(items, g, labels)
  {
    group := [];
    for i := 0 to |items|
      invariant group == Gather(items[..i], g, labels[..i])
    {
      assert items[..i + 1][..i] == items[..i] && labels[..i + 1][..i] == labels[..i];
      if labels[i] == g {
        group := group + [items[i]];
      }
    }
    assert items[..|items|] == items && labels[..|items|] == labels;
  }

  lemma {:induction false} CountPrefix(labels: seq<int>, g: int, i: nat, j: nat)
    requires i <= j <= |labels|
    ensures CountBefore(labels[..j], g, i) == CountBefore(labels, g, i)
  {
    if i > 0 {
      CountPrefix(labels, g, i - 1, j);
    }
  }

  /** A gathered group holds each of its slots at that slot's rank, and nothing else. */
  lemma {:induction false} GatherAt<T>(items: seq<T>, g: int, labels: seq<int>)
    requires |items| == |labels|
    ensures |Gather(items, g, labels)| == GroupSize(labels, g)
    ensures forall i :: 0 <= i < |items| && labels[i] == g ==>
              Rank(labels, i) < |Gather(items, g, labels)| && Gather(items, g, labels)[Rank(labels, i)] == items[i]
  {
    if items != [] {
      var n := |items| - 1;
      GatherAt(items[..n], g, labels[..n]);
      CountPrefix(labels, g, n, n);
      forall i | 0 <= i < |items| && labels[i] == g
        ensures Rank(labels, i) < |Gather(items, g, labels)|
        ensures Gather(items, g, labels)[Rank(labels, i)] == items[i]
      {
        CountPrefix(labels, g, i, n);
        if i < n {
          assert items[..n][i] == items[i] && labels[..n][i] == g;
        }
      }
    }
  }

  // ------------------------------------------------------------ scattering

  /** The slots of group `g` receive the group's results in order. */
  function Scatter<T>(outputs: seq<T>, labels: seq<int>, g: int, data: seq<T>): (r: seq<T>)
    requires |outputs| == |labels| && |data| >= GroupSize(labels, g)
    ensures |r| == |outputs|
  {
    seq(|outputs|, i requires 0 <= i < |outputs| =>
      RankBelow(labels, i);
      if labels[i] == g then data[Rank(labels, i)] else outputs[i])
  }

  /** The response handlers' loop, with its running index into the response. */
  method ScatterInto<T>(outputs: array<T>, labels: seq<int>, g: int, data: seq<T>)
    requires outputs.Length == |labels| && |data| >= GroupSize(labels, g)
    modifies outputs
    ensures outputs[..] == Scatter(old(outputs[..]), labels, g, data)
  {
    var outIdx := 0;
    ghost var was := outputs[..];
    for i := 0 to |labels|
      invariant outIdx == CountBefore(labels, g, i)
      invariant forall k :: 0 <= k < i ==> outputs[k] == Scatter(was, labels, g, data)[k]
      invariant forall k :: i <= k < |labels| ==> outputs[k] == was[k]
    {
      if labels[i] == g {
        RankBelow(labels, i);
        outputs[i] := data[outIdx];
        outIdx := outIdx + 1;
      }
    }
  }

  /** Scattering undoes gathering. */
  lemma ScatterGather<T>(items: seq<T>, outputs: seq<T>, labels: seq<int>, g: int)
    requires |items| == |outputs| == |labels|
    ensures GroupSize(labels, g) == |Gather(items, g, labels)|
    ensures forall i :: 0 <= i < |labels| ==>
              Scatter(outputs, labels, g, Gather(items, g, labels))[i]
              == if labels[i] == g then items[i] else outputs[i]
  {
    GatherAt(items, g, labels);
  }

  // ------------------------------------------------------------ validation

  function Elements(labels: seq<int>): set<int> {
    set g | g in labels
  }

  function Effective(labels: seq<int>, size: nat): (r: seq<int>)
    ensures labels != [] ==> r == labels
    ensures labels == [] ==> |r| == size && forall i :: 0 <= i < size ==> r[i] == i
  {
    if labels != [] then labels else seq(size, i => i)
  }

  lemma SameElements(i: seq<int>, o: seq<int>)
    ensures Elements(i) == Elements(o) <==> forall g :: g in i <==> g in o
  {
    if forall g :: g in i <==> g in o {
      assert Elements(i) == Elements(o);
    }
    if Elements(i) == Elements(o) {
      forall g
        ensures g in i <==> g in o
      {
        assert g in Elements(i) <==> g in Elements(o);
      }
    }
  }

  lemma SameIdentity(i: seq<int>, o: seq<int>)
    requires forall k :: 0 <= k < |i| ==> i[k] == k
    requires forall k :: 0 <= k < |o| ==> o[k] == k
    ensures Elements(i) == Elements(o) <==> |i| == |o|
  {
    SameElements(i, o);
    if |i| < |o| {
      assert o[|i|] in o && |i| !in i;
    } else if |o| < |i| {
      assert i[|o|] in i && |o| !in o;
    } else {
      assert i == o;
    }
  }

  datatype Grouping = Invalid(code: int) | Valid(inLabels: seq<int>, outLabels: seq<int>)

  /** Accepted groupings label every buffer, and inputs and outputs use the same
      non-empty set of labels. */
  method NormalizeAndValidate(inputGroups: seq<int>, outputGroups: seq<int>, nIn: nat, nOut: nat)
    returns (r: Grouping)
    ensures var i, o := Effective(inputGroups, nIn), Effective(outputGroups, nOut);
            && (r.Valid? <==> |i| == nIn && |o| == nOut && Elements(i) == Elements(o) && nIn > 0)
            && (r.Valid? ==> r.inLabels == i && r.outLabels == o && nOut > 0)
            && (r.Invalid? ==> r.code == if |i| != nIn || |o| != nOut then 1 else 2)
    ensures inputGroups != [] && outputGroups != [] ==>
              && (r.Valid? <==> |inputGroups| == nIn && |outputGroups| == nOut
                                && forall g :: g in inputGroups <==> g in outputGroups)
              && (r.Valid? ==> r.inLabels == inputGroups && r.outLabels == outputGroups)
    ensures inputGroups == [] && outputGroups == [] ==>
              && (r.Valid? <==> nIn == nOut >= 1)
              && (r.Valid? ==> forall k :: 0 <= k < nIn ==> r.inLabels[k] == r.outLabels[k] == k)
  {
    var i, o := Effective(inputGroups, nIn), Effective(outputGroups, nOut);
    SameElements(i, o);
    if inputGroups == [] && outputGroups == [] {
      SameIdentity(i, o);
    }
    if |i| != nIn || |o| != nOut {
      return Invalid(1);
    }
    var numGroups := ValidDataGroups(i, o);
    if numGroups == 0 {
      NonEmpty(i);
      return Invalid(2);
    }
    NonEmpty(i);
    NonEmpty(o);
    return Valid(i, o);
  }

  function ValidDataGroups(i: seq<int>, o: seq<int>): nat {
    if Elements(i) == Elements(o) then |Elements(i)| else 0
  }

  lemma NonEmpty(labels: seq<int>)
    ensures |Elements(labels)| == 0 <==> |labels| == 0
  {
    if |labels| > 0 {
      assert labels[0] in Elements(labels);
    }
  }
}
