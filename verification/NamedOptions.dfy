/** Options stored under hierarchical names, and the lookup that falls back from a
    name to its ancestors. */
module NamedOptions {
  import opened Names
  import opened Wrappers

  /** An option: its type, and its value if it has one. */
  datatype Value = Value(kind: nat, content: Option<int>)

  datatype Status = DoesNotExist | Exists | IsSet

  datatype Lookup = Lookup(status: Status, value: Option<int>)

  function FormatName(name: string, key: string): string {
    if name == "" then key else "/" + name + ":" + key
  }

  function KeyStatus(m: map<string, Value>, key: string): Status {
    if key !in m then DoesNotExist else if m[key].content.Some? then IsSet else Exists
  }

  /** `get(key, value)`: a value of the wrong type only counts as existing; a key
      without a value does not count at all. */
  function GetKey(m: map<string, Value>, key: string, kind: nat): Lookup {
    if KeyStatus(m, key) == IsSet then
      if m[key].kind == kind then Lookup(IsSet, m[key].content) else Lookup(Exists, None)
    else Lookup(DoesNotExist, None)
  }

  /** First name of `order` under which the key is present. */
  function FirstHolder(m: map<string, Value>, order: seq<string>, key: string): (i: nat)
    ensures i <= |order|
    ensures forall k :: 0 <= k < i ==> FormatName(order[k], key) !in m
    ensures i < |order| ==> FormatName(order[i], key) in m
  {
    if order == [] then 0
    else if FormatName(order[0], key) in m then 0
    else 1 + FirstHolder(m, order[1..], key)
  }

  /** `get(name, key, value)`. */
  function Get(m: map<string, Value>, name: string, key: string, kind: nat): Lookup
    requires !Leading(Normalized(name))
  {
    var order := SearchOrder(name);
    var i := FirstHolder(m, order, key);
    if i < |order| then GetKey(m, FormatName(order[i], key), kind) else GetKey(m, key, kind)
  }

  class PressioOptions {
    var options: map<string, Value>

    method Set(name: string, key: string, value: Value)
      modifies this
      ensures options == old(options)[FormatName(name, key) := value]
    {
      options := options[FormatName(name, key) := value];
    }

    method NamedGet(name: string, key: string, kind: nat) returns (r: Lookup)
      requires |name| < NPOS && !Leading(Normalized(name))
      ensures r == Get(options, name, key, kind)
    {
      var order := Search(name);
      for i := 0 to |order|
        invariant forall k :: 0 <= k < i ==> FormatName(order[k], key) !in options
      {
        var prefixKey := FormatName(order[i], key);
        if prefixKey in options {
          HolderUnique(options, order, key, i);
          return GetKey(options, prefixKey, kind);
        }
      }
      return GetKey(options, key, kind);
    }
  }

  lemma HolderUnique(m: map<string, Value>, order: seq<string>, key: string, i: nat)
    requires i < |order| && FormatName(order[i], key) in m
    requires forall k :: 0 <= k < i ==> FormatName(order[k], key) !in m
    ensures FirstHolder(m, order, key) == i
  {
  }

  // ------------------------------------------------------------ properties

  /** For one option key, different names never share a stored key. */
  lemma FormatInjective(a: string, b: string, key: string)
    requires FormatName(a, key) == FormatName(b, key)
    ensures a == b
  {
    assert |FormatName(a, key)| == if a == "" then |key| else |a| + |key| + 2;
    assert |FormatName(b, key)| == if b == "" then |key| else |b| + |key| + 2;
    if a != "" {
      assert FormatName(a, key)[1..|a| + 1] == a;
      assert FormatName(b, key)[1..|a| + 1] == b;
    }
  }

  /** The nearest ancestor holding the key decides, in any sense: without a value the key
      does not exist, with one of another type it exists, else the value is returned. */
  lemma NearestDecides(m: map<string, Value>, name: string, key: string, kind: nat, holder: string)
    requires !Leading(Normalized(name))
    requires holder in SearchOrder(name) && FormatName(holder, key) in m
    requires forall p :: p in SearchOrder(name) && |p| > |holder| ==> FormatName(p, key) !in m
    ensures var held := m[FormatName(holder, key)];
            Get(m, name, key, kind) == if held.content.None? then Lookup(DoesNotExist, None)
                                       else if held.kind != kind then Lookup(Exists, None)
                                       else Lookup(IsSet, held.content)
  {
    SearchOrderExact(name);
    var order := SearchOrder(name);
    var i :| 0 <= i < |order| && order[i] == holder;
    forall k | 0 <= k < i
      ensures FormatName(order[k], key) !in m
    {
      assert order[k] in order && |order[k]| > |order[i]|;
    }
    HolderUnique(m, order, key, i);
  }

  /** When no ancestor holds the key, neither does the lookup. */
  lemma NoHolder(m: map<string, Value>, name: string, key: string, kind: nat)
    requires !Leading(Normalized(name))
    requires forall p :: p in SearchOrder(name) ==> FormatName(p, key) !in m
    ensures Get(m, name, key, kind) == Lookup(DoesNotExist, None)
  {
    var order := SearchOrder(name);
    SearchOrderExact(name);
    assert order[|order| - 1] in order;
    assert FormatName("", key) == key;
  }

  lemma {:induction false} SameHolder(m: map<string, Value>, n: map<string, Value>, order: seq<string>, key: string)
    requires forall i :: 0 <= i < |order| ==> (FormatName(order[i], key) in m <==> FormatName(order[i], key) in n)
    ensures FirstHolder(m, order, key) == FirstHolder(n, order, key)
  {
    if order != [] {
      forall i | 0 <= i < |order[1..]|
        ensures FormatName(order[1..][i], key) in m <==> FormatName(order[1..][i], key) in n
      {
        assert order[1..][i] == order[i + 1];
      }
      SameHolder(m, n, order[1..], key);
      assert FormatName(order[0], key) in m <==> FormatName(order[0], key) in n;
    }
  }

  // -------------------------------------------------- which writes are seen

  /** The key `k` under the name `a` spells out the stored key of `l` under `b`. */
  predicate Spells(a: string, k: string, b: string, l: string) {
    b != "" && (if a == "" then k == FormatName(b, l)
                else |b| > |a| && b[..|a|] == a && b[|a|] == ':' && k == b[|a| + 1..] + ":" + l)
  }

  lemma SpellsShares(a: string, k: string, b: string, l: string)
    requires Spells(a, k, b, l)
    ensures FormatName(a, k) == FormatName(b, l)
  {
    if a != "" {
      assert b == a + ":" + b[|a| + 1..];
    }
  }

  lemma ShorterSpells(a: string, k: string, b: string, l: string)
    requires FormatName(a, k) == FormatName(b, l) && |a| < |b|
    ensures Spells(a, k, b, l)
  {
    if a != "" {
      var s := FormatName(b, l);
      assert s[1..|a| + 1] == a && s[1..|a| + 1] == b[..|a|];
      assert s[|a| + 1] == ':' && s[|a| + 1] == b[|a|];
      assert s[|a| + 2..] == k && s[|a| + 2..] == b[|a| + 1..] + ":" + l;
    }
  }

  /** Two options share a stored key exactly when they are the same, or one option key
      spells out the rest of the other's. */
  lemma SharedKeyExact(a: string, k: string, b: string, l: string)
    ensures FormatName(a, k) == FormatName(b, l) <==> (a == b && k == l) || Spells(a, k, b, l) || Spells(b, l, a, k)
  {
    if FormatName(a, k) == FormatName(b, l) {
      if |a| < |b| {
        ShorterSpells(a, k, b, l);
      } else if |b| < |a| {
        ShorterSpells(b, l, a, k);
      } else {
        var s := FormatName(a, k);
        if a != "" {
          assert s[1..|a| + 1] == a && s[1..|a| + 1] == b;
          assert s[|a| + 2..] == k && s[|a| + 2..] == l;
        }
      }
    }
    if Spells(a, k, b, l) {
      SpellsShares(a, k, b, l);
    }
    if Spells(b, l, a, k) {
      SpellsShares(b, l, a, k);
    }
  }

  /** A name without a colon, and an option key that does not look hierarchical. */
  predicate Plain(name: string, key: string) {
    ':' !in name && !Leading(key)
  }

  /** Plain options never share a stored key. */
  lemma PlainInjective(a: string, k: string, b: string, l: string)
    requires Plain(a, k) && Plain(b, l) && FormatName(a, k) == FormatName(b, l)
    ensures a == b && k == l
  {
    SharedKeyExact(a, k, b, l);
  }

  /** Storing `value` under the stored key `written` does not change the answer. */
  predicate SameAnswer(m: map<string, Value>, written: string, value: Value, name: string, key: string, kind: nat)
    requires !Leading(Normalized(name))
  {
    Get(m[written := value], name, key, kind) == Get(m, name, key, kind)
  }

  /** A write of `otherKey` under `other` changes no lookup of `key` under `name`. */
  ghost predicate Invisible(other: string, otherKey: string, name: string, key: string)
    requires !Leading(Normalized(name))
  {
    forall m: map<string, Value>, value: Value, kind: nat ::
      SameAnswer(m, FormatName(other, otherKey), value, name, key, kind)
  }

  lemma UnsearchedWrite(m: map<string, Value>, name: string, key: string, kind: nat, written: string, value: Value)
    requires !Leading(Normalized(name))
    requires forall p :: p in SearchOrder(name) ==> FormatName(p, key) != written
    ensures Get(m[written := value], name, key, kind) == Get(m, name, key, kind)
  {
    var n := m[written := value];
    var order := SearchOrder(name);
    SearchOrderExact(name);
    forall i | 0 <= i < |order|
      ensures FormatName(order[i], key) in m <==> FormatName(order[i], key) in n
    {
      assert order[i] in order;
    }
    SameHolder(m, n, order, key);
    assert order[|order| - 1] in order && FormatName("", key) == key;
  }

  /** A write under one of the searched keys is seen when nothing else is stored. */
  lemma SearchedWrite(name: string, key: string, holder: string)
    requires !Leading(Normalized(name)) && holder in SearchOrder(name)
    ensures var empty: map<string, Value> := map[];
            Get(empty[FormatName(holder, key) := Value(0, Some(0))], name, key, 0) != Get(empty, name, key, 0)
  {
    var empty: map<string, Value> := map[];
    var m := empty[FormatName(holder, key) := Value(0, Some(0))];
    NoHolder(empty, name, key, 0);
    forall p | p in SearchOrder(name) && FormatName(p, key) == FormatName(holder, key)
      ensures p == holder
    {
      FormatInjective(p, holder, key);
    }
    NearestDecides(m, name, key, 0, holder);
  }

  /** A write, of any option under any name, cannot change an answer exactly when its
      stored key is none of those the lookup tries. */
  lemma OtherWritesInvisible(name: string, key: string, other: string, otherKey: string)
    requires !Leading(Normalized(name))
    ensures Invisible(other, otherKey, name, key)
            <==> forall p :: p in SearchOrder(name) ==> FormatName(p, key) != FormatName(other, otherKey)
  {
    var written := FormatName(other, otherKey);
    if p :| p in SearchOrder(name) && FormatName(p, key) == written {
      SearchedWrite(name, key, p);
      var empty: map<string, Value> := map[];
      assert !SameAnswer(empty, written, Value(0, Some(0)), name, key, 0);
    } else {
      forall m: map<string, Value>, value: Value, kind: nat
        ensures SameAnswer(m, written, value, name, key, kind)
      {
        UnsearchedWrite(m, name, key, kind, written, value);
      }
    }
  }

  lemma SearchedColonFree(name: string, p: string)
    requires !Leading(Normalized(name)) && ':' !in name && p in SearchOrder(name)
    ensures ':' !in p
  {
    SearchOrderExact(name);
    var n := Normalized(name);
    assert forall c :: c in n ==> c in name;
    if p != "" {
      assert forall c :: c in n[..|p|] ==> c in n;
    }
  }

  /** Among plain options, a write is seen exactly when it is a write of the very
      option key looked up, under a name that is searched. */
  lemma PlainWritesExact(name: string, key: string, other: string, otherKey: string)
    requires !Leading(Normalized(name)) && Plain(name, key) && Plain(other, otherKey)
    ensures Invisible(other, otherKey, name, key) <==> !(otherKey == key && other in SearchOrder(name))
  {
    OtherWritesInvisible(name, key, other, otherKey);
    forall p | p in SearchOrder(name) && FormatName(p, key) == FormatName(other, otherKey)
      ensures p == other && key == otherKey
    {
      SearchedColonFree(name, p);
      PlainInjective(p, key, other, otherKey);
    }
  }

  lemma SearchOrderPlain(name: string)
    requires name != "" && '/' !in name
    ensures !Leading(Normalized(name)) && SearchOrder(name) == [name, ""]
  {
  }

  /** A colon in a name: a write under "a:b", which is not searched from "a", changes
      what "a" finds for the key "b:k". */
  lemma ColonInName()
    ensures !Leading(Normalized("a")) && "a:b" !in SearchOrder("a") && !Leading("b:k") && !Leading("k")
    ensures FormatName("a", "b:k") == FormatName("a:b", "k") && !Invisible("a:b", "k", "a", "b:k")
  {
    SearchOrderPlain("a");
    assert "a" in SearchOrder("a");
    OtherWritesInvisible("a", "b:k", "a:b", "k");
  }

  /** A slash before a key: a write under "a", which is not searched from "b", changes
      what "b" finds for the key "/a:k". */
  lemma SlashBeforeKey()
    ensures !Leading(Normalized("b")) && "a" !in SearchOrder("b") && ':' !in "a" && ':' !in "b"
    ensures FormatName("", "/a:k") == FormatName("a", "k") && !Invisible("a", "k", "b", "/a:k")
  {
    SearchOrderPlain("b");
    assert "" in SearchOrder("b");
    OtherWritesInvisible("b", "/a:k", "a", "k");
  }

  /** Getting right after setting returns the value set. */
  ghost predicate ComesBack(m: map<string, Value>, name: string, key: string, kind: nat, v: int)
    requires !Leading(Normalized(name))
  {
    Get(m[FormatName(name, key) := Value(kind, Some(v))], name, key, kind) == Lookup(IsSet, Some(v))
  }

  /** Setting under a name and getting under the same name returns what was stored,
      for every earlier content, exactly when the name is in normal form. */
  lemma SetThenGetExact(name: string, key: string, kind: nat, v: int)
    requires !Leading(Normalized(name))
    ensures (forall m: map<string, Value> :: ComesBack(m, name, key, kind, v))
            <==> !Leading(name) && !Trailing(name)
  {
    SearchOrderExact(name);
    var order := SearchOrder(name);
    if !Leading(name) && !Trailing(name) {
      assert order[0] == name;
      forall m: map<string, Value>
        ensures ComesBack(m, name, key, kind, v)
      {
        HolderUnique(m[FormatName(name, key) := Value(kind, Some(v))], order, key, 0);
      }
    } else {
      NormalIsShorter(name);
      var m: map<string, Value> := map[FormatName(name, key) := Value(kind, Some(v))];
      forall p | p in order
        ensures FormatName(p, key) !in m
      {
        if FormatName(p, key) == FormatName(name, key) {
          FormatInjective(p, name, key);
        }
      }
      NoHolder(m, name, key, kind);
      var empty: map<string, Value> := map[];
      assert empty[FormatName(name, key) := Value(kind, Some(v))] == m;
      assert !ComesBack(empty, name, key, kind, v);
    }
  }

  lemma NormalIsShorter(name: string)
    requires Leading(name) || Trailing(name)
    ensures |Normalized(name)| < |name|
  {
  }

  /** What is set under "/a" is not found under "/a". */
  lemma SlashedNameLost(key: string, kind: nat, v: int)
    ensures !Leading(Normalized("/a")) && exists m: map<string, Value> :: !ComesBack(m, "/a", key, kind, v)
  {
    assert Normalized("/a") == "a";
    SetThenGetExact("/a", key, kind, v);
  }
}
