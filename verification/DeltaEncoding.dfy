/** Delta coding of fixed-width integers.  A word is a residue modulo `m`, 2 to the
    width; sums and differences wrap around. */
module DeltaEncoding {

  predicate Words(s: seq<int>, m: nat) {
    forall i :: 0 <= i < |s| ==> 0 <= s[i] < m
  }

  function Add(a: int, b: int, m: nat): int {
    if a + b < m then a + b else a + b - m
  }

  function Sub(a: int, b: int, m: nat): int {
    if a >= b then a - b else a - b + m
  }

  /** On words, wrapping around is arithmetic modulo `m`. */
  lemma WrapIsModulo(a: int, b: int, m: nat)
    requires 0 <= a < m && 0 <= b < m
    ensures Add(a, b, m) == (a + b) % m && Sub(a, b, m) == (a - b) % m
  {
    Residue(a + b, if a + b < m then 0 else 1, m);
    Residue(a - b, if a >= b then 0 else -1, m);
  }

  lemma Residue(x: int, q: int, m: nat)
    requires m >= 1 && 0 <= x - q * m < m
    ensures x % m == x - q * m
  {
    var d, r := x / m, x % m;
    assert x == m * d + r;
    if d < q {
      Apart(m, d, q);
    } else if d > q {
      Apart(m, q, d);
    }
  }

  lemma Apart(m: nat, a: int, b: int)
    requires a < b
    ensures m * a + m <= m * b
  {
    assert m * (b - a - 1) >= 0;
    assert m * (b - a - 1) == m * b - m * a - m;
  }

  /** The running sum of the first `n` words. */
  function PrefixSum(s: seq<int>, n: nat, m: nat): (r: int)
    requires n <= |s| && m >= 1
    ensures Words(s, m) ==> 0 <= r < m
  {
    if n == 0 then 0 else Add(s[n - 1], PrefixSum(s, n - 1, m), m)
  }

  function Encoded(x: seq<int>, m: nat): (y: seq<int>)
    ensures |y| == |x|
  {
    seq(|x|, i requires 0 <= i < |x| => if i == 0 then x[0] else Sub(x[i], x[i - 1], m))
  }

  function Decoded(y: seq<int>, m: nat): (x: seq<int>)
    requires m >= 1
    ensures |x| == |y|
  {
    seq(|y|, i requires 0 <= i < |y| => PrefixSum(y, i + 1, m))
  }

  method Encode(begin: seq<int>, m: nat) returns (ptr: array<int>)
    requires |begin| >= 1
    ensures fresh(ptr) && ptr[..] == Encoded(begin, m)
  {
    ptr := new int[|begin|];
    ptr[0] := begin[0];
    for i := 1 to |begin|
      invariant forall k :: 0 <= k < i ==> ptr[k] == Encoded(begin, m)[k]
    {
      ptr[i] := Sub(begin[i], begin[i - 1], m);
    }
  }

  /** The decoder writes the second word unconditionally, so it needs two. */
  method Decode(begin: seq<int>, m: nat) returns (ptr: array<int>)
    requires m >= 1 && |begin| >= 2 && Words(begin, m)
    ensures fresh(ptr) && ptr[..] == Decoded(begin, m)
  {
    ptr := new int[|begin|];
    ptr[0] := begin[0];
    ptr[1] := Add(begin[0], begin[1], m);
    assert PrefixSum(begin, 1, m) == begin[0] by {
      assert PrefixSum(begin, 0, m) == 0;
    }
    for i := 2 to |begin|
      invariant forall k :: 0 <= k < i ==> ptr[k] == PrefixSum(begin, k + 1, m)
    {
      ptr[i] := Add(begin[i], ptr[i - 1], m);
    }
  }

  /** Prefix sums of the differences are the words themselves. */
  lemma {:induction false} SumsOfDifferences(x: seq<int>, m: nat, n: nat)
    requires Words(x, m) && 1 <= n <= |x|
    ensures m >= 1 && PrefixSum(Encoded(x, m), n, m) == x[n - 1]
  {
    assert 0 <= x[0] < m;
    assert PrefixSum(Encoded(x, m), 0, m) == 0;
    if n > 1 {
      SumsOfDifferences(x, m, n - 1);
    }
  }

  lemma AddSub(a: int, b: int, m: nat)
    requires 0 <= a < m && 0 <= b < m
    ensures Sub(Add(a, b, m), b, m) == a
  {
  }

  /** Differences of the prefix sums are the words themselves. */
  lemma DifferenceOfSums(y: seq<int>, m: nat, i: nat)
    requires Words(y, m) && i < |y|
    ensures m >= 1 && Encoded(Decoded(y, m), m)[i] == y[i]
  {
    assert 0 <= y[i] < m;
    var before := PrefixSum(y, i, m);
    assert PrefixSum(y, i + 1, m) == Add(y[i], before, m);
    if i > 0 {
      AddSub(y[i], before, m);
      assert Decoded(y, m)[i - 1] == before;
    }
  }

  lemma EncodedWords(x: seq<int>, m: nat)
    requires Words(x, m)
    ensures Words(Encoded(x, m), m)
  {
    forall i | 0 <= i < |x|
      ensures 0 <= Encoded(x, m)[i] < m
    {
      assert 0 <= x[i] < m;
      if i > 0 {
        assert Encoded(x, m)[i] == Sub(x[i], x[i - 1], m);
      }
    }
  }

  /** Sums of the differences are the words themselves. */
  lemma SumOfDifferences(x: seq<int>, m: nat, i: nat)
    requires Words(x, m) && i < |x|
    ensures m >= 1 && Decoded(Encoded(x, m), m)[i] == x[i]
  {
    SumsOfDifferences(x, m, i + 1);
  }

  lemma DecodeEncode(x: seq<int>, m: nat)
    requires m >= 1 && Words(x, m)
    ensures Words(Encoded(x, m), m) && Decoded(Encoded(x, m), m) == x
  {
    EncodedWords(x, m);
    forall i | 0 <= i < |x|
      ensures Decoded(Encoded(x, m), m)[i] == x[i]
    {
      SumOfDifferences(x, m, i);
    }
  }

  lemma EncodeDecode(y: seq<int>, m: nat)
    requires m >= 1 && Words(y, m)
    ensures Words(Decoded(y, m), m) && Encoded(Decoded(y, m), m) == y
  {
    forall i | 0 <= i < |y|
      ensures Encoded(Decoded(y, m), m)[i] == y[i]
    {
      DifferenceOfSums(y, m, i);
    }
  }

  /** Coding is a bijection on word sequences. */
  lemma DeltaBijection(s: seq<int>, m: nat)
    requires m >= 1 && Words(s, m)
    ensures Words(Encoded(s, m), m) && Decoded(Encoded(s, m), m) == s
    ensures Words(Decoded(s, m), m) && Encoded(Decoded(s, m), m) == s
  {
    DecodeEncode(s, m);
    EncodeDecode(s, m);
  }
}
