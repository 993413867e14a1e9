/** The search order of hierarchical names: the name itself, then its ancestors. */
module Names {
  import opened Wrappers

  const NPOS := 0xFFFF_FFFF_FFFF_FFFF

  /** Position of the last slash. */
  function LastSlash(s: string): (p: Option<nat>)
    ensures p.Some? ==> p.value < |s| && s[p.value] == '/' && forall i :: p.value < i < |s| ==> s[i] != '/'
    ensures p.None? ==> forall i :: 0 <= i < |s| ==> s[i] != '/'
  {
    if s == [] then None
    else if s[|s| - 1] == '/' then Some(|s| - 1)
    else LastSlash(s[..|s| - 1])
  }

  predicate Leading(s: string) {
    s != [] && s[0] == '/'
  }

  predicate Trailing(s: string) {
    s != [] && s[|s| - 1] == '/'
  }

  /** The part before the first colon, and the part behind it. */
  function BeforeColon(s: string): string {
    if s == "" || s[0] == ':' then "" else [s[0]] + BeforeColon(s[1..])
  }

  function AfterColon(s: string): string {
    if s == "" then "" else if s[0] == ':' then s[1..] else AfterColon(s[1..])
  }

  lemma {:induction false} ColonFree(a: string, b: string)
    requires ':' !in a
    ensures BeforeColon(a + ":" + b) == a && AfterColon(a + ":" + b) == b
  {
    if a == "" {
      assert a + ":" + b == [':'] + b;
    } else {
      assert (a + ":" + b)[1..] == a[1..] + ":" + b;
      assert a == [a[0]] + a[1..];
      ColonFree(a[1..], b);
    }
  }

  /** The name without a leading and a trailing slash. */
  function Normalized(value: string): string {
    if value == "/" then ""
    else if Leading(value) && Trailing(value) then value[1..|value| - 1]
    else if Leading(value) then value[1..]
    else if Trailing(value) then value[..|value| - 1]
    else value
  }

  method Normalize(value: string) returns (n: string)
    ensures n == Normalized(value)
  {
    var size := |value|;
    var leading := value != [] && value[0] == '/';
    var trailing := value != [] && value[|value| - 1] == '/';
    if size >= 2 {
      if leading {
        size := size - 1;
      }
      if trailing {
        size := size - 1;
      }
    } else if size == 1 {
      if leading {
        size := size - 1;
      }
    }
    var from := if leading then 1 else 0;
    return value[from..from + size];
  }

  /** A non-empty name and the parts of it that end before a slash, longest first. */
  function Prefixes(n: string): (r: seq<string>)
    requires !Leading(n)
    decreases |n|
  {
    match LastSlash(n)
    case None => [n]
    case Some(p) => [n] + Prefixes(n[..p])
  }

  /** The first `len` characters, or all of them. */
  function Cut(n: string, len: nat): string {
    if len > |n| then n else n[..len]
  }

  /** `rfind('/', len - 1)` with the wrap-around of an unsigned `len`. */
  method RFind(n: string, len: nat) returns (p: nat)
    requires |n| < NPOS && len <= NPOS
    ensures p == match LastSlash(if len == 0 then n else Cut(n, len)) case Some(q) => q case None => NPOS
  {
    ghost var s := if len == 0 then n else Cut(n, len);
    var i := if len == 0 || len > |n| then |n| else len;
    while i > 0
      invariant 0 <= i <= |s|
      invariant LastSlash(s) == LastSlash(s[..i])
    {
      i := i - 1;
      assert s[..i + 1][..i] == s[..i];
      if n[i] == '/' {
        return i;
      }
    }
    return NPOS;
  }

  /** The search order; the loop ends because the normal form has no leading slash. */
  method Search(value: string) returns (order: seq<string>)
    requires |value| < NPOS && !Leading(Normalized(value))
    ensures order == SearchOrder(value)
  {
    var n := Normalize(value);
    if n == [] {
      return [""];
    }
    order := [];
    var len: nat := NPOS;
    var done := false;
    while !done
      invariant !done ==>
        1 <= len <= NPOS && Cut(n, len) != [] && Prefixes(n) == order + Prefixes(Cut(n, len))
      invariant done ==> order == Prefixes(n)
      decreases if done then 0 else 1 + |Cut(n, len)|
    {
      NextCut(n, len);
      order := order + [Cut(n, len)];
      len := RFind(n, len);
      done := len == NPOS;
    }
    return order + [""];
  }

  /** From one ancestor to the next: the cut before the last slash. */
  lemma NextCut(n: string, len: nat)
    requires |n| < NPOS && 1 <= len && Cut(n, len) != [] && !Leading(n)
    ensures match LastSlash(Cut(n, len))
            case None => Prefixes(Cut(n, len)) == [Cut(n, len)]
            case Some(p) => 1 <= p < |Cut(n, len)| && Cut(n, p) == Cut(n, len)[..p]
                            && Prefixes(Cut(n, len)) == [Cut(n, len)] + Prefixes(Cut(n, p))
  {
    if LastSlash(Cut(n, len)).Some? {
      var p := LastSlash(Cut(n, len)).value;
      assert Cut(n, len)[p] == n[p];
      assert Cut(n, p) == Cut(n, len)[..p];
    }
  }

  function SearchOrder(value: string): (r: seq<string>)
    requires !Leading(Normalized(value))
  {
    if Normalized(value) == "" then [""] else Prefixes(Normalized(value)) + [""]
  }

  // ------------------------------------------------------------ the order

  /** `p` is `n` itself or an ancestor of it. */
  ghost predicate Ancestor(p: string, n: string) {
    p == n || (|p| < |n| && p == n[..|p|] && n[|p|] == '/')
  }

  function Slashes(n: string): nat {
    if n == [] then 0 else Slashes(n[..|n| - 1]) + (if n[|n| - 1] == '/' then 1 else 0)
  }

  lemma {:induction false} SlashesSplit(n: string)
    ensures Slashes(n) == match LastSlash(n) case None => 0 case Some(p) => Slashes(n[..p]) + 1
  {
    if n != [] {
      SlashesSplit(n[..|n| - 1]);
      match LastSlash(n[..|n| - 1]) {
        case None =>
        case Some(p) => assert n[..|n| - 1][..p] == n[..p];
      }
    }
  }

  lemma {:induction false} PrefixesCount(n: string)
    requires !Leading(n)
    ensures |Prefixes(n)| == Slashes(n) + 1
    decreases |n|
  {
    SlashesSplit(n);
    match LastSlash(n) {
      case None =>
      case Some(p) => PrefixesCount(n[..p]);
    }
  }

  lemma {:induction false} PrefixesAre(n: string, p: string)
    requires !Leading(n)
    ensures p in Prefixes(n) <==> Ancestor(p, n)
    decreases |n|
  {
    match LastSlash(n) {
      case None =>
      case Some(q) =>
        PrefixesAre(n[..q], p);
        assert p in Prefixes(n) <==> p == n || p in Prefixes(n[..q]);
    }
  }

  lemma {:induction false} PrefixesShrink(n: string, i: nat, j: nat)
    requires !Leading(n) && i < j < |Prefixes(n)|
    ensures |Prefixes(n)[i]| > |Prefixes(n)[j]|
    decreases |n|
  {
    var p := LastSlash(n).value;
    if i > 0 {
      PrefixesShrink(n[..p], i - 1, j - 1);
    } else if j > 1 {
      PrefixesShrink(n[..p], 0, j - 1);
    }
  }

  /** The search order lists the ancestors of the normal form and nothing else, longest
      first, and then the empty name: one entry per slash and two more. */
  lemma SearchOrderExact(value: string)
    requires !Leading(Normalized(value))
    ensures var n, order := Normalized(value), SearchOrder(value);
            && (n == "" ==> order == [""])
            && (n != "" ==> |order| == Slashes(n) + 2)
            && order[|order| - 1] == ""
            && (forall p :: p in order <==> p == "" || Ancestor(p, n))
            && (forall i, j :: 0 <= i < j < |order| ==> |order[i]| > |order[j]|)
  {
    var n, order := Normalized(value), SearchOrder(value);
    if n != "" {
      PrefixesCount(n);
      forall p
        ensures p in Prefixes(n) <==> Ancestor(p, n)
      {
        PrefixesAre(n, p);
      }
      forall i, j | 0 <= i < j < |order|
        ensures |order[i]| > |order[j]|
      {
        if j < |order| - 1 {
          PrefixesShrink(n, i, j);
        } else {
          assert Prefixes(n)[i] in Prefixes(n);
          assert Ancestor(Prefixes(n)[i], n);
        }
      }
    }
  }

  // ------------------------------------------------ when the loop does not end

  /** `len` after `k` turns of the loop; `NPOS` is what ends it. */
  function LenAfter(n: string, k: nat): (len: nat)
    ensures len < |n| || len == NPOS
  {
    if k == 0 then NPOS
    else
      var len := LenAfter(n, k - 1);
      match LastSlash(if len == 0 then n else Cut(n, len)) case Some(q) => q case None => NPOS
  }

  /** The loop has ended after `k` turns. */
  predicate EndsAt(n: string, k: nat) {
    k >= 1 && LenAfter(n, k) == NPOS
  }

  lemma {:induction false} SlashKeepsGoing(n: string, k: nat)
    requires |n| < NPOS && Leading(n) && k >= 1
    ensures LenAfter(n, k) != NPOS
  {
    if k > 1 {
      SlashKeepsGoing(n, k - 1);
    }
    var len := LenAfter(n, k - 1);
    assert (if len == 0 then n else Cut(n, len))[0] == '/';
  }

  lemma {:induction false} Descends(n: string, k: nat)
    requires |n| < NPOS && n != [] && !Leading(n)
    requires forall j :: 1 <= j <= k ==> LenAfter(n, j) != NPOS
    ensures k >= 1 ==> 1 <= LenAfter(n, k) <= |n| - k
  {
    if k >= 1 {
      Descends(n, k - 1);
    }
  }

  /** The loop of the search ends exactly when the normal form does not begin with a
      slash. */
  lemma SearchEndsExact(n: string)
    requires n != [] && |n| < NPOS
    ensures (exists k: nat :: EndsAt(n, k)) <==> !Leading(n)
  {
    if Leading(n) {
      forall k: nat | k >= 1
        ensures !EndsAt(n, k)
      {
        SlashKeepsGoing(n, k);
      }
    } else if !(exists k: nat :: EndsAt(n, k)) {
      assert forall k: nat :: !EndsAt(n, k);
      forall j: nat | 1 <= j <= |n|
        ensures LenAfter(n, j) != NPOS
      {
        assert !EndsAt(n, j);
      }
      Descends(n, |n|);
    }
  }

  /** For three slashes the loop does not end. */
  lemma SlashesNeverEnd()
    ensures Normalized("///") == "/" && forall k: nat :: !EndsAt("/", k)
  {
    SearchEndsExact("/");
  }

  /** A leading and a trailing slash are taken off, and nothing else; of a lone slash the
      leading one. */
  lemma NormalizedParts(value: string)
    ensures value == (if Leading(value) then "/" else "") + Normalized(value)
                     + (if Trailing(value) && |value| >= 2 then "/" else "")
  {
  }

  lemma {:induction false} NoColon(s: string)
    requires ':' !in s
    ensures BeforeColon(s) == s && AfterColon(s) == ""
  {
    if s != "" {
      NoColon(s[1..]);
    }
  }
}
