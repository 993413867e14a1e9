/** Running the groups independently: one request per group, responses in any order. */
module ManyIndependent {
  import opened Groups

  datatype Response<T> = Response(idx: int, status: int, data: seq<T>)

  /** The responses answer each group of `labels` exactly once, with a result for
      every slot of the group. */
  ghost predicate OnePerGroup<T>(rs: seq<Response<T>>, labels: seq<int>) {
    && (forall k :: 0 <= k < |rs| ==> rs[k].idx in labels && |rs[k].data| == GroupSize(labels, rs[k].idx))
    && (forall k, m :: 0 <= k < m < |rs| ==> rs[k].idx != rs[m].idx)
    && (forall i :: 0 <= i < |labels| ==> exists k :: 0 <= k < |rs| && rs[k].idx == labels[i])
  }

  /** The outputs after handling the responses in order. */
  function HandleAll<T>(rs: seq<Response<T>>, labels: seq<int>, outputs: seq<T>): (r: seq<T>)
    requires |outputs| == |labels|
    requires forall k :: 0 <= k < |rs| ==> |rs[k].data| >= GroupSize(labels, rs[k].idx)
    ensures |r| == |outputs|
  {
    if rs == [] then outputs
    else
      var last := rs[|rs| - 1];
      Scatter(HandleAll(rs[..|rs| - 1], labels, outputs), labels, last.idx, last.data)
  }

  lemma {:induction false} HandledSlot<T>(rs: seq<Response<T>>, labels: seq<int>, outputs: seq<T>, i: nat, k: nat)
    requires |outputs| == |labels| && i < |labels| && k < |rs|
    requires forall m :: 0 <= m < |rs| ==> |rs[m].data| >= GroupSize(labels, rs[m].idx)
    requires rs[k].idx == labels[i] && forall m :: k < m < |rs| ==> rs[m].idx != labels[i]
    ensures Rank(labels, i) < |rs[k].data|
    ensures HandleAll(rs, labels, outputs)[i] == rs[k].data[Rank(labels, i)]
  {
    RankBelow(labels, i);
    if k < |rs| - 1 {
      assert rs[..|rs| - 1][k] == rs[k];
      HandledSlot(rs[..|rs| - 1], labels, outputs, i, k);
    }
  }

  /** Whatever order the responses arrive in and whatever the slots held before, the
      outputs are the same: `a` and `b` hold the same responses. */
  lemma OrderIrrelevant<T>(a: seq<Response<T>>, b: seq<Response<T>>, labels: seq<int>, x: seq<T>, y: seq<T>)
    requires OnePerGroup(a, labels) && OnePerGroup(b, labels)
    requires forall k :: 0 <= k < |a| ==> a[k] in b
    requires |x| == |y| == |labels|
    ensures HandleAll(a, labels, x) == HandleAll(b, labels, y)
  {
    forall i | 0 <= i < |labels|
      ensures HandleAll(a, labels, x)[i] == HandleAll(b, labels, y)[i]
    {
      var k :| 0 <= k < |a| && a[k].idx == labels[i];
      assert a[k] in b;
      var m :| 0 <= m < |b| && b[m] == a[k];
      HandledSlot(a, labels, x, i, k);
      HandledSlot(b, labels, y, i, m);
    }
  }

  // ------------------------------------------------------ the two executors

  /** What output slot `i` must end up holding: its own group's result at its rank. */
  ghost predicate SlotHolds<I, O>(out: O, i: nat, inputs: seq<I>, inLabels: seq<int>, outLabels: seq<int>,
                                  action: (int, seq<I>) -> seq<O>)
    requires i < |outLabels| && |inputs| == |inLabels|
  {
    var results := action(outLabels[i], Gather(inputs, outLabels[i], inLabels));
    Rank(outLabels, i) < |results| && out == results[Rank(outLabels, i)]
  }

  /** The child fills every output of the group it is handed. */
  ghost predicate FillsGroups<I, O>(action: (int, seq<I>) -> seq<O>, inputs: seq<I>, inLabels: seq<int>,
                                    outLabels: seq<int>)
    requires |inputs| == |inLabels|
  {
    forall g: int :: g in outLabels ==> |action(g, Gather(inputs, g, inLabels))| == GroupSize(outLabels, g)
  }

  /** `order` lists the labels in use, each at least once. */
  ghost predicate Lists(order: seq<int>, labels: seq<int>) {
    (forall k :: 0 <= k < |order| ==> order[k] in labels) && (forall i :: 0 <= i < |labels| ==> labels[i] in order)
  }

  /** The queue of requests, with responses handled in the order `arrival`; also the
      threaded loop, where `arrival` is the order in which the groups finish. */
  method RunGroups<I, O>(inputs: seq<I>, outputs: array<O>, inLabels: seq<int>, outLabels: seq<int>,
                         action: (int, seq<I>) -> seq<O>, arrival: seq<int>)
    requires |inputs| == |inLabels| && outputs.Length == |outLabels|
    requires FillsGroups(action, inputs, inLabels, outLabels) && Lists(arrival, outLabels)
    modifies outputs
    ensures forall i :: 0 <= i < |outLabels| ==>
              SlotHolds(outputs[i], i, inputs, inLabels, outLabels, action)
  {
    for k := 0 to |arrival|
      invariant forall i :: 0 <= i < |outLabels| && outLabels[i] in arrival[..k] ==>
                  SlotHolds(outputs[i], i, inputs, inLabels, outLabels, action)
    {
      var g := arrival[k];
      assert g in outLabels;
      var group := MakeDataGroup(inputs, g, inLabels);
      var data := action(g, group);
      ghost var was := outputs[..];
      ScatterInto(outputs, outLabels, g, data);
      forall i | 0 <= i < |outLabels| && outLabels[i] in arrival[..k + 1]
        ensures SlotHolds(outputs[i], i, inputs, inLabels, outLabels, action)
      {
        RankBelow(outLabels, i);
        assert outputs[i] == outputs[..][i] == Scatter(was, outLabels, g, data)[i];
      }
    }
  }

  method CommonMany<I, O>(inputs: seq<I>, outputs: array<O>, inputGroups: seq<int>, outputGroups: seq<int>,
                          action: (int, seq<I>) -> seq<O>, arrival: seq<int>)
    returns (code: int)
    requires var i, o := Effective(inputGroups, |inputs|), Effective(outputGroups, outputs.Length);
             |i| == |inputs| && |o| == outputs.Length && Elements(i) == Elements(o) ==>
             FillsGroups(action, inputs, i, o) && Lists(arrival, i)
    modifies outputs
    ensures var i, o := Effective(inputGroups, |inputs|), Effective(outputGroups, outputs.Length);
            && (code == 0 <==> |i| == |inputs| && |o| == outputs.Length && Elements(i) == Elements(o) && |inputs| > 0)
            && (code == 0 ==> forall k :: 0 <= k < |o| ==> SlotHolds(outputs[k], k, inputs, i, o, action))
            && (code != 0 ==> outputs[..] == old(outputs[..]))
    ensures inputGroups != [] && outputGroups != [] ==>
              && (code == 0 <==> |inputGroups| == |inputs| && |outputGroups| == outputs.Length
                                 && forall g :: g in inputGroups <==> g in outputGroups)
              && (code == 0 ==> forall k :: 0 <= k < outputs.Length ==>
                                  SlotHolds(outputs[k], k, inputs, inputGroups, outputGroups, action))
    ensures inputGroups == [] && outputGroups == [] ==>
              && (code == 0 <==> |inputs| == outputs.Length >= 1)
              && (code == 0 ==> forall k :: 0 <= k < outputs.Length ==>
                                  action(k, [inputs[k]]) == [outputs[k]])
  {
    var r := NormalizeAndValidate(inputGroups, outputGroups, |inputs|, outputs.Length);
    if r.Invalid? {
      return r.code;
    }
    SameLabels(arrival, r.inLabels, r.outLabels);
    RunGroups(inputs, outputs, r.inLabels, r.outLabels, action, arrival);
    if inputGroups == [] && outputGroups == [] {
      forall k | 0 <= k < outputs.Length
        ensures action(k, [inputs[k]]) == [outputs[k]]
      {
        LoneBuffer(inputs, r.inLabels, k);
        LoneBuffer(inputs, r.outLabels, k);
        assert r.outLabels[k] in r.outLabels;
      }
    }
    return 0;
  }

  lemma SameLabels(order: seq<int>, a: seq<int>, b: seq<int>)
    requires Elements(a) == Elements(b) && Lists(order, a)
    ensures Lists(order, b)
  {
    forall k | 0 <= k < |order|
      ensures order[k] in b
    {
      assert order[k] in Elements(a);
    }
    forall i | 0 <= i < |b|
      ensures b[i] in order
    {
      assert b[i] in Elements(b);
    }
  }

  /** With every buffer in a group of its own, a group holds one buffer. */
  lemma {:induction false} LoneBuffer<I>(inputs: seq<I>, labels: seq<int>, g: nat)
    requires |inputs| == |labels| && forall k :: 0 <= k < |labels| ==> labels[k] == k
    ensures Gather(inputs, g, labels) == if g < |inputs| then [inputs[g]] else []
    ensures GroupSize(labels, g) == if g < |labels| then 1 else 0
    ensures g < |labels| ==> Rank(labels, g) == 0
  {
    GatherAt(inputs, g, labels);
    if inputs != [] {
      var n := |inputs| - 1;
      LoneBuffer(inputs[..n], labels[..n], g);
      if g < n {
        CountPrefix(labels, g, g, n);
      } else if g == n {
        CountPrefix(labels, g, n, n);
      }
    }
  }

  // --------------------------------------------- compressors of the threads

  /** The size test the threaded form makes before its loop. */
  predicate SizesAccepted(compressors: nat, groups: nat) {
    compressors <= groups
  }

  /** Which compressor iteration `idx` clones. */
  function CompressorFor(compressors: nat, idx: nat): nat {
    if compressors == 1 then 0 else idx
  }

  /** The test lets too few compressors through: every iteration finds one exactly
      when there is a single compressor or one per group. */
  lemma CompressorsExact(compressors: nat, groups: nat)
    requires SizesAccepted(compressors, groups)
    ensures (forall idx: nat :: idx < groups ==> CompressorFor(compressors, idx) < compressors)
            <==> compressors == 1 || compressors == groups
    ensures forall idx: nat :: compressors > 1 ==> CompressorFor(compressors, idx) == idx
  {
    if groups > 0 && compressors != 1 && compressors < groups {
      assert CompressorFor(compressors, compressors) == compressors;
    }
  }

  /** Two compressors pass for three groups, and the third finds none. */
  lemma TwoForThree()
    ensures SizesAccepted(2, 3) && !(CompressorFor(2, 2) < 2)
  {
    CompressorsExact(2, 3);
  }
}
