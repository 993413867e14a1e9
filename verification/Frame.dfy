/** The length-prefixed container the chunked buffers travel in: the number of
    payloads, their sizes, then the payloads, all counts being 64-bit words. */
module Frame {
  import opened Layout

  type byte = x: int | 0 <= x < 256

  const WORD := 8

  const WORD_LIMIT := 0x1_0000_0000_0000_0000

  function Pow256(k: nat): nat {
    if k == 0 then 1 else 256 * Pow256(k - 1)
  }

  /** `n` as `k` bytes, least significant first. */
  function ToBytes(n: nat, k: nat): (b: seq<byte>)
    ensures |b| == k
  {
    if k == 0 then [] else [n % 256] + ToBytes(n / 256, k - 1)
  }

  lemma Regroup(n: nat, a: nat, q: nat, r: nat, b: nat, q2: nat, r2: nat)
    requires n == a * q + r && q == b * q2 + r2
    ensures n == (a * r2 + r) + a * b * q2
  {
    Distrib(a, b * q2, r2);
    MulAssoc(a, b, q2);
  }

  lemma DigitBelow(a: nat, b: nat, r: nat, r2: nat)
    requires r < a && r2 < b
    ensures a * r2 + r < a * b
  {
    MulMono(a, r2 + 1, b);
    Distrib(a, r2, 1);
  }

  lemma QuotientOf(n: nat, d: nat) returns (q: nat, r: nat)
    requires d >= 1
    ensures q == n / d && r == n % d && n == d * q + r && r < d
  {
    q, r := n / d, n % d;
  }

  lemma DivTwice(n: nat, a: nat, b: nat)
    requires a >= 1 && b >= 1
    ensures a * b >= 1 && n / a / b == n / (a * b)
  {
    var q, r := QuotientOf(n, a);
    var q2, r2 := QuotientOf(q, b);
    MulPositive(a, b);
    Regroup(n, a, q, r, b, q2, r2);
    DigitBelow(a, b, r, r2);
    DivModOfSum(a * r2 + r, a * b, q2);
  }

  lemma {:induction false} Pow256Positive(k: nat)
    ensures Pow256(k) >= 1
  {
    if k > 0 {
      Pow256Positive(k - 1);
    }
  }

  /** Byte `i` is the digit of weight 256 to the `i`. */
  lemma {:induction false} ByteAt(n: nat, k: nat, i: nat)
    requires i < k
    ensures Pow256(i) >= 1 && ToBytes(n, k)[i] == n / Pow256(i) % 256
  {
    Pow256Positive(i);
    if i > 0 {
      Pow256Positive(i - 1);
      ByteAt(n / 256, k - 1, i - 1);
      DivTwice(n, 256, Pow256(i - 1));
    }
  }

  function FromBytes(b: seq<byte>): nat {
    if b == [] then 0 else b[0] + 256 * FromBytes(b[1..])
  }

  lemma {:induction false} FromToBytes(n: nat, k: nat)
    requires n < Pow256(k)
    ensures FromBytes(ToBytes(n, k)) == n
  {
    if k > 0 {
      FromToBytes(n / 256, k - 1);
    }
  }

  lemma WordRange()
    ensures Pow256(WORD) == WORD_LIMIT
  {
    assert Pow256(4) == 256 * Pow256(3) == 256 * (256 * Pow256(2));
    assert Pow256(6) == 256 * (256 * Pow256(4));
    assert Pow256(8) == 256 * (256 * Pow256(6));
  }

  function Word(n: nat): (b: seq<byte>)
    ensures |b| == WORD
  {
    ToBytes(n, WORD)
  }

  lemma WordInverse(n: nat)
    requires n < WORD_LIMIT
    ensures FromBytes(Word(n)) == n
  {
    WordRange();
    FromToBytes(n, WORD);
  }

  function Concat(ps: seq<seq<byte>>): seq<byte> {
    if ps == [] then [] else Concat(ps[..|ps| - 1]) + ps[|ps| - 1]
  }

  function Sizes(ps: seq<seq<byte>>): (b: seq<byte>)
    ensures |b| == WORD * |ps|
  {
    if ps == [] then [] else Sizes(ps[..|ps| - 1]) + Word(|ps[|ps| - 1]|)
  }

  function Header(ps: seq<seq<byte>>): seq<byte> {
    Word(|ps|) + Sizes(ps)
  }

  function Frame(ps: seq<seq<byte>>): seq<byte> {
    Header(ps) + Concat(ps)
  }

  function TotalSize(ps: seq<seq<byte>>): nat {
    if ps == [] then 0 else TotalSize(ps[..|ps| - 1]) + |ps[|ps| - 1]|
  }

  /** The frame is one word for the count, one for each size, and the payloads. */
  lemma {:induction false} FrameSize(ps: seq<seq<byte>>)
    ensures |Frame(ps)| == WORD * (|ps| + 1) + TotalSize(ps)
    ensures |Concat(ps)| == TotalSize(ps)
  {
    if ps != [] {
      FrameSize(ps[..|ps| - 1]);
    }
  }

  /** What a reader needs of the writer: every count fits one word. */
  ghost predicate Countable(ps: seq<seq<byte>>) {
    |ps| < WORD_LIMIT && forall i :: 0 <= i < |ps| ==> |ps[i]| < WORD_LIMIT
  }

  lemma {:induction false} SizeAt(ps: seq<seq<byte>>, i: nat)
    requires i < |ps|
    ensures Sizes(ps)[WORD * i..WORD * (i + 1)] == Word(|ps[i]|)
  {
    var init := ps[..|ps| - 1];
    if i < |ps| - 1 {
      SizeAt(init, i);
      assert Sizes(ps)[WORD * i..WORD * (i + 1)] == Sizes(init)[WORD * i..WORD * (i + 1)];
    }
  }

  lemma {:induction false} ConcatAt(ps: seq<seq<byte>>, i: nat)
    requires i < |ps|
    ensures |Concat(ps[..i])| + |ps[i]| == |Concat(ps[..i + 1])| <= |Concat(ps)|
    ensures Concat(ps)[|Concat(ps[..i])|..|Concat(ps[..i])| + |ps[i]|] == ps[i]
  {
    var init := ps[..|ps| - 1];
    if i < |ps| - 1 {
      ConcatAt(init, i);
      assert init[..i] == ps[..i] && init[..i + 1] == ps[..i + 1];
      var lo, hi := |Concat(ps[..i])|, |Concat(ps[..i + 1])|;
      assert Concat(ps)[lo..hi] == Concat(init)[lo..hi];
    } else {
      assert ps[..i + 1] == ps && ps[..i] == init;
    }
    assert ps[..i + 1][..i] == ps[..i];
  }

  // ------------------------------------------------------------- writing

  method Put(buf: array<byte>, at: nat, bytes: seq<byte>)
    requires at + |bytes| <= buf.Length
    modifies buf
    ensures buf[..at + |bytes|] == old(buf[..at]) + bytes
    ensures buf[at + |bytes|..] == old(buf[at + |bytes|..])
  {
    for i := 0 to |bytes|
      invariant buf[..at] == old(buf[..at]) && buf[at..at + i] == bytes[..i]
      invariant buf[at + i..] == old(buf[at + i..])
    {
      buf[at + i] := bytes[i];
      assert buf[at..at + i + 1] == bytes[..i] + [bytes[i]];
    }
  }

  /** The header with only the first sizes written. */
  function PartialHeader(n: nat, ps: seq<seq<byte>>): (b: seq<byte>)
    ensures |b| == WORD * (|ps| + 1)
  {
    Word(n) + Sizes(ps)
  }

  method WriteHeader(buf: array<byte>, ps: seq<seq<byte>>)
    requires WORD * (|ps| + 1) <= buf.Length
    modifies buf
    ensures buf[..WORD * (|ps| + 1)] == Header(ps)
    ensures buf[WORD * (|ps| + 1)..] == old(buf[WORD * (|ps| + 1)..])
  {
    ghost var was := buf[..];
    Put(buf, 0, Word(|ps|));
    for i := 0 to |ps|
      invariant buf[..WORD * (i + 1)] == PartialHeader(|ps|, ps[..i])
      invariant buf[WORD * (i + 1)..] == was[WORD * (i + 1)..]
    {
      RestAfter(buf[..], was, WORD * (i + 1), WORD * (i + 2));
      Put(buf, WORD * (i + 1), Word(|ps[i]|));
      assert ps[..i + 1][..i] == ps[..i];
    }
    assert ps[..|ps|] == ps;
  }

  lemma RestAfter(s: seq<byte>, t: seq<byte>, lo: nat, hi: nat)
    requires |s| == |t| && lo <= hi <= |s| && s[lo..] == t[lo..]
    ensures s[hi..] == t[hi..]
  {
    assert s[hi..] == s[lo..][hi - lo..];
    assert t[hi..] == t[lo..][hi - lo..];
  }

  /** The header and the first `i` payloads are in place, and nothing behind them. */
  ghost predicate Written(now: seq<byte>, was: seq<byte>, ps: seq<seq<byte>>, i: nat, accum: nat) {
    && i <= |ps| && |now| == |was| && |Header(ps)| + |Concat(ps)| <= |now|
    && accum == |Header(ps)| + |Concat(ps[..i])| <= |now|
    && now[..accum] == Header(ps) + Concat(ps[..i])
    && now[accum..] == was[accum..]
  }

  method WritePayload(buf: array<byte>, ps: seq<seq<byte>>, i: nat, accum: nat, ghost was: seq<byte>)
    requires i < |ps| && Written(buf[..], was, ps, i, accum)
    modifies buf
    ensures Written(buf[..], was, ps, i + 1, accum + |ps[i]|)
  {
    ConcatAt(ps, i);
    assert ps[..i + 1][..i] == ps[..i];
    RestAfter(buf[..], was, accum, accum + |ps[i]|);
    Put(buf, accum, ps[i]);
  }

  /** Writes the frame at the front of `buf` and touches nothing behind it. */
  method WriteFrame(buf: array<byte>, ps: seq<seq<byte>>)
    requires |Frame(ps)| <= buf.Length
    modifies buf
    ensures buf[..|Frame(ps)|] == Frame(ps)
    ensures buf[|Frame(ps)|..] == old(buf[|Frame(ps)|..])
  {
    ghost var was := buf[..];
    WriteHeader(buf, ps);
    var accum: nat := WORD * (|ps| + 1);
    for i := 0 to |ps|
      invariant Written(buf[..], was, ps, i, accum)
    {
      WritePayload(buf, ps, i, accum, was);
      accum := accum + |ps[i]|;
    }
    assert ps[..|ps|] == ps;
  }

  // ------------------------------------------------------------- reading

  method ReadWord(buf: array<byte>, at: nat) returns (n: nat)
    requires at + WORD <= buf.Length
    ensures n == FromBytes(buf[at..at + WORD])
  {
    n := 0;
    var i := WORD;
    while i > 0
      invariant 0 <= i <= WORD
      invariant n == FromBytes(buf[at + i..at + WORD])
    {
      i := i - 1;
      assert buf[at + i..at + WORD][1..] == buf[at + i + 1..at + WORD];
      n := buf[at + i] + 256 * n;
    }
  }

  lemma SliceOfPrefix(f: seq<byte>, s: seq<byte>, lo: nat, hi: nat)
    requires f <= s && lo <= hi <= |f|
    ensures s[lo..hi] == f[lo..hi]
  {
    assert s[..|f|] == f;
  }

  lemma SizeWord(ps: seq<seq<byte>>, s: seq<byte>, i: nat)
    requires Frame(ps) <= s && i < |ps|
    ensures WORD * (i + 2) <= |s| && s[WORD * (i + 1)..WORD * (i + 1) + WORD] == Word(|ps[i]|)
  {
    FrameSize(ps);
    SizeAt(ps, i);
    SliceOfPrefix(Frame(ps), s, WORD * (i + 1), WORD * (i + 2));
    assert Frame(ps)[WORD * (i + 1)..WORD * (i + 2)] == Sizes(ps)[WORD * i..WORD * (i + 1)];
  }

  lemma PayloadSlice(ps: seq<seq<byte>>, s: seq<byte>, i: nat)
    requires Frame(ps) <= s && i < |ps|
    ensures var lo := WORD * (|ps| + 1) + |Concat(ps[..i])|;
            && lo + |ps[i]| <= |s| && s[lo..lo + |ps[i]|] == ps[i]
            && lo + |ps[i]| == WORD * (|ps| + 1) + |Concat(ps[..i + 1])|
  {
    FrameSize(ps);
    ConcatAt(ps, i);
    var h, c := WORD * (|ps| + 1), |Concat(ps[..i])|;
    SliceOfPrefix(Frame(ps), s, h + c, h + c + |ps[i]|);
    assert Frame(ps)[h + c..h + c + |ps[i]|] == Concat(ps)[c..c + |ps[i]|];
  }

  /** The layout: the count, then the size of each payload in a word of its own, then the
      payloads one after the other. */
  lemma FrameLayout(ps: seq<seq<byte>>, i: nat)
    requires i < |ps|
    ensures |Frame(ps)| >= WORD * (|ps| + 1) && Frame(ps)[..WORD] == Word(|ps|)
    ensures Frame(ps)[WORD * (i + 1)..WORD * (i + 1) + WORD] == Word(|ps[i]|)
    ensures var data := WORD * (|ps| + 1) + TotalSize(ps[..i]);
            data + |ps[i]| <= |Frame(ps)| && Frame(ps)[data..data + |ps[i]|] == ps[i]
  {
    FrameSize(ps);
    FrameSize(ps[..i]);
    SizeWord(ps, Frame(ps), i);
    PayloadSlice(ps, Frame(ps), i);
  }

  method ReadSizes(buf: array<byte>, n: nat, ghost ps: seq<seq<byte>>) returns (sizes: seq<nat>)
    requires Countable(ps) && Frame(ps) <= buf[..] && n == |ps|
    ensures |sizes| == n && forall k :: 0 <= k < n ==> sizes[k] == |ps[k]|
  {
    sizes := [];
    for i := 0 to n
      invariant |sizes| == i && forall k :: 0 <= k < i ==> sizes[k] == |ps[k]|
    {
      SizeWord(ps, buf[..], i);
      WordInverse(|ps[i]|);
      var size := ReadWord(buf, WORD * (i + 1));
      sizes := sizes + [size];
    }
  }

  method ReadCount(buf: array<byte>, ghost ps: seq<seq<byte>>) returns (n: nat)
    requires Countable(ps) && Frame(ps) <= buf[..]
    ensures n == |ps|
  {
    FrameSize(ps);
    SliceOfPrefix(Frame(ps), buf[..], 0, WORD);
    n := ReadWord(buf, 0);
    assert buf[0..WORD] == Word(|ps|);
    WordInverse(|ps|);
  }

  /** Reading a buffer that starts with a frame recovers every payload, whatever
      follows the frame. */
  method ReadFrame(buf: array<byte>, ghost ps: seq<seq<byte>>) returns (payloads: seq<seq<byte>>)
    requires Countable(ps) && Frame(ps) <= buf[..]
    ensures payloads == ps
  {
    var n := ReadCount(buf, ps);
    var sizes := ReadSizes(buf, n, ps);
    var accum := WORD * (n + 1);
    payloads := [];
    for i := 0 to n
      invariant accum == WORD * (n + 1) + |Concat(ps[..i])|
      invariant payloads == ps[..i]
    {
      PayloadSlice(ps, buf[..], i);
      payloads := payloads + [buf[accum..accum + sizes[i]]];
      accum := accum + sizes[i];
    }
  }
}
