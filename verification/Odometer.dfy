/** The any-rank counter that walks a box in flat order. */
module Odometer {
  import opened Layout

  /** Number of leading digits that are at their maximum and therefore carry. */
  function Carries(max: Shape, idx: seq<nat>): nat
    requires |idx| == |max|
  {
    if max != [] && idx[0] + 1 == max[0] then 1 + Carries(max[1..], idx[1..]) else 0
  }

  function Next(max: Shape, idx: seq<nat>): (r: seq<nat>)
    requires |idx| == |max|
    ensures |r| == |max|
  {
    if max == [] then []
    else if idx[0] + 1 == max[0] then [0] + Next(max[1..], idx[1..])
    else [idx[0] + 1] + idx[1..]
  }

  lemma {:induction false} NextStays(max: Shape, idx: seq<nat>)
    requires InBox(max, idx)
    ensures InBox(max, Next(max, idx)) && Carries(max, idx) <= |max|
    ensures Carries(max, idx) == |max| ==> Next(max, idx) == Zeros(|max|)
  {
    if max != [] {
      NextStays(max[1..], idx[1..]);
    }
  }

  /** A step of the digit `i` below `d`, with `f` of `q` counted by the digits behind it. */
  lemma DigitStep(d: nat, i: nat, q: nat, f: nat)
    requires i < d && f < q
    ensures i + d * f + 1 <= d * q
    ensures i + d * f + 1 == d * q <==> i + 1 == d && f + 1 == q
    ensures i + 1 == d ==> i + d * f + 1 == d * (f + 1)
  {
    Distrib(d, f, 1);
    MulMono(d, f + 1, q);
    if f + 1 < q {
      Distrib(d, f + 1, 1);
      MulMono(d, f + 2, q);
    }
  }

  /** One step stays in the box and moves to the next flat position, or wraps to
      zero with a carry out of every digit exactly at the last position. */
  lemma {:induction false} NextCounts(max: Shape, idx: seq<nat>)
    requires InBox(max, idx)
    ensures InBox(max, Next(max, idx))
    ensures Carries(max, idx) <= |max|
    ensures Carries(max, idx) == |max| <==> Flat(max, idx) + 1 == Prod(max)
    ensures if Flat(max, idx) + 1 < Prod(max) then Flat(max, Next(max, idx)) == Flat(max, idx) + 1
            else Next(max, idx) == Zeros(|max|)
  {
    NextStays(max, idx);
    FlatInRange(max, idx);
    if max != [] {
      var rest, tail := max[1..], idx[1..];
      NextCounts(rest, tail);
      FlatInRange(rest, tail);
      DigitStep(max[0], idx[0], Prod(rest), Flat(rest, tail));
      if idx[0] + 1 == max[0] {
        assert Next(max, idx)[1..] == Next(rest, tail);
      } else {
        assert Next(max, idx)[1..] == tail;
      }
    }
  }

  /** What the step leaves when it stops at digit `i`. */
  function Stepped(idx: seq<nat>, i: nat): (r: seq<nat>)
    requires i <= |idx|
    ensures |r| == |idx|
    ensures forall k :: 0 <= k < |r| ==> r[k] == if k < i then 0 else if k == i then idx[k] + 1 else idx[k]
  {
    Zeros(i) + (if i < |idx| then [idx[i] + 1] + idx[i + 1..] else [])
  }

  lemma SteppedTail(idx: seq<nat>, i: nat)
    requires 1 <= i <= |idx|
    ensures Stepped(idx, i) == [0] + Stepped(idx[1..], i - 1)
  {
  }

  lemma TailCarries(max: Shape, idx: seq<nat>, i: nat)
    requires |idx| == |max| && 1 <= i <= |max|
    requires forall k :: 0 <= k < i ==> idx[k] + 1 == max[k]
    ensures forall k :: 0 <= k < i - 1 ==> idx[1..][k] + 1 == max[1..][k]
  {
  }

  lemma {:induction false} NextAt(max: Shape, idx: seq<nat>, i: nat)
    requires |idx| == |max| && i <= |max|
    requires forall k :: 0 <= k < i ==> idx[k] + 1 == max[k]
    requires i < |max| ==> idx[i] + 1 != max[i]
    ensures Carries(max, idx) == i
    ensures Next(max, idx) == Stepped(idx, i)
  {
    if i > 0 {
      TailCarries(max, idx, i);
      NextAt(max[1..], idx[1..], i - 1);
      SteppedTail(idx, i);
    } else if max == [] {
      assert Next(max, idx) == [];
    } else {
      assert Next(max, idx) == [idx[0] + 1] + idx[1..];
    }
  }

  /** Advances `counter` in place; returns one more than the last digit touched. */
  method IncrCounter(counter: array<nat>, max: Shape) returns (modified: nat)
    requires counter.Length == |max|
    modifies counter
    ensures counter[..] == Next(max, old(counter[..]))
    ensures modified == Carries(max, old(counter[..])) + 1
  {
    ghost var was := counter[..];
    var i := 0;
    while i < counter.Length && counter[i] + 1 == max[i]
      invariant 0 <= i <= |max|
      invariant forall k :: 0 <= k < i ==> counter[k] == 0 && was[k] + 1 == max[k]
      invariant forall k :: i <= k < |max| ==> counter[k] == was[k]
    {
      counter[i] := 0;
      i := i + 1;
    }
    NextAt(max, was, i);
    if i < counter.Length {
      counter[i] := counter[i] + 1;
    }
    return i + 1;
  }
}
