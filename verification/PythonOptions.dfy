/** Nested Python dictionaries and flat option keys: the worklist that flattens and
    the inverse that rebuilds.  A tree is a dictionary (`Node`), a value (`Leaf`) or
    Python's `None` (`Absent`). */
module PythonOptions {
  import opened Wrappers
  import opened Names

  datatype Tree = Leaf(value: int) | Absent | Node(kids: map<string, Tree>)

  type Path = seq<string>

  // ------------------------------------------------------------- the trees

  /** The dictionary at `path`, if there is one. */
  predicate HasDict(t: Tree, path: Path)
    decreases |path|
  {
    t.Node? && (path == [] || (path[0] in t.kids && HasDict(t.kids[path[0]], path[1..])))
  }

  function DictAt(t: Tree, path: Path): (d: Tree)
    requires HasDict(t, path)
    ensures d.Node?
    decreases |path|
  {
    if path == [] then t else DictAt(t.kids[path[0]], path[1..])
  }

  predicate LeafAt(t: Tree, path: Path, key: string, v: int) {
    HasDict(t, path) && key in DictAt(t, path).kids && DictAt(t, path).kids[key] == Leaf(v)
  }

  /** Inner dictionaries are non-empty, their names are free of both separators, and
      there is no `None`. */
  ghost predicate WellNamed(t: Tree) {
    !t.Absent? && (t.Node? ==> forall k :: k in t.kids ==>
      WellNamed(t.kids[k]) && (t.kids[k].Node? ==> t.kids[k].kids != map[] && '/' !in k && ':' !in k))
  }

  /** The keys of the outermost dictionary that hold values do not look hierarchical. */
  ghost predicate Convertible(root: Tree) {
    && root.Node? && WellNamed(root)
    && forall k :: k in root.kids && root.kids[k].Leaf? ==> k == "" || k[0] != '/'
  }

  lemma {:induction false} DictSnoc(t: Tree, path: Path, k: string)
    ensures HasDict(t, path + [k]) <==>
            HasDict(t, path) && k in DictAt(t, path).kids && DictAt(t, path).kids[k].Node?
    ensures HasDict(t, path + [k]) ==> DictAt(t, path + [k]) == DictAt(t, path).kids[k]
    decreases |path|
  {
    if path == [] {
      assert (path + [k])[1..] == [];
    } else {
      assert (path + [k])[1..] == path[1..] + [k];
      if t.Node? && path[0] in t.kids {
        DictSnoc(t.kids[path[0]], path[1..], k);
      }
    }
  }

  lemma {:induction false} PathNames(t: Tree, path: Path)
    requires WellNamed(t) && HasDict(t, path)
    ensures forall i :: 0 <= i < |path| ==> '/' !in path[i] && ':' !in path[i]
    ensures WellNamed(DictAt(t, path))
    decreases |path|
  {
    if path != [] {
      PathNames(t.kids[path[0]], path[1..]);
      forall i | 0 <= i < |path|
        ensures '/' !in path[i] && ':' !in path[i]
      {
        if i > 0 {
          assert path[i] == path[1..][i - 1];
        }
      }
    }
  }

  // -------------------------------------------------------------- flat keys

  /** The names of a path, each behind a slash. */
  function Join(path: Path): string {
    if path == [] then "" else Join(path[..|path| - 1]) + "/" + path[|path| - 1]
  }

  function PathKey(path: Path, key: string): string {
    if path != [] then Join(path) + ":" + key else key
  }

  /** The names behind each slash. */
  function Split(s: string): Path
    decreases |s|
  {
    match LastSlash(s)
    case None => []
    case Some(p) => Split(s[..p]) + [s[p + 1..]]
  }

  lemma {:induction false} JoinColonFree(path: Path)
    requires forall i :: 0 <= i < |path| ==> ':' !in path[i]
    ensures ':' !in Join(path)
    ensures path != [] ==> Join(path) != "" && Join(path)[0] == '/'
  {
    if path != [] {
      JoinColonFree(path[..|path| - 1]);
    }
  }

  lemma {:induction false} LastSlashOf(a: string, name: string)
    requires '/' !in name
    ensures LastSlash(a + "/" + name) == Some(|a|)
  {
    var s := a + "/" + name;
    if name == "" {
      assert s[|s| - 1] == '/';
    } else {
      assert s[|s| - 1] == name[|name| - 1];
      assert s[..|s| - 1] == a + "/" + name[..|name| - 1];
      LastSlashOf(a, name[..|name| - 1]);
    }
  }

  lemma {:induction false} SplitJoin(path: Path)
    requires forall i :: 0 <= i < |path| ==> '/' !in path[i]
    ensures Split(Join(path)) == path
  {
    if path != [] {
      var n := |path| - 1;
      SplitJoin(path[..n]);
      LastSlashOf(Join(path[..n]), path[n]);
      var s := Join(path);
      assert s[..|Join(path[..n])|] == Join(path[..n]);
      assert s[|Join(path[..n])| + 1..] == path[n];
      assert path == path[..n] + [path[n]];
    }
  }

  /** Splitting loses nothing of a string that starts with a slash. */
  lemma {:induction false} JoinSplit(s: string)
    requires Leading(s)
    ensures Join(Split(s)) == s
    decreases |s|
  {
    var p := LastSlash(s).value;
    var names := Split(s);
    assert names[..|names| - 1] == Split(s[..p]);
    assert s == s[..p] + "/" + s[p + 1..];
    if p > 0 {
      JoinSplit(s[..p]);
    } else {
      assert s[..p] == "" && Split("") == [];
    }
  }

  /** What the inverse reads out of a flat key. */
  function KeyPath(s: string): Path {
    if s == "" || s[0] != '/' then [] else Split(BeforeColon(s))
  }

  function KeyName(s: string): string {
    if s == "" || s[0] != '/' then s else AfterColon(s)
  }

  lemma {:induction false} BeforeClean(s: string)
    ensures ':' !in BeforeColon(s)
    ensures s != "" && s[0] == '/' ==> BeforeColon(s) != "" && BeforeColon(s)[0] == '/'
  {
    if s != "" && s[0] != ':' {
      BeforeClean(s[1..]);
    }
  }

  /** Any key is read as it is written: what does not start with a slash is an outermost
      name, and the rest is a path up to the first colon and a name behind it. */
  lemma KeyParts(s: string)
    ensures !Leading(s) ==> KeyPath(s) == [] && KeyName(s) == s
    ensures Leading(s) && ':' !in s ==> Join(KeyPath(s)) == s && KeyName(s) == ""
    ensures Leading(s) && ':' in s ==> s == Join(KeyPath(s)) + ":" + KeyName(s) && ':' !in Join(KeyPath(s))
  {
    if Leading(s) {
      BeforeClean(s);
      JoinSplit(BeforeColon(s));
      if ':' in s {
        ColonParts(s);
      } else {
        NoColon(s);
      }
    }
  }

  lemma {:induction false} ColonParts(s: string)
    requires ':' in s
    ensures s == BeforeColon(s) + ":" + AfterColon(s)
  {
    if s[0] == ':' {
      assert s == [':'] + s[1..];
    } else {
      ColonParts(s[1..]);
      assert s == [s[0]] + s[1..];
    }
  }

  /** A leaf's flat key names the leaf: distinct leaves get distinct keys. */
  lemma KeyDecodes(root: Tree, path: Path, key: string, v: int)
    requires Convertible(root) && LeafAt(root, path, key, v)
    ensures KeyPath(PathKey(path, key)) == path && KeyName(PathKey(path, key)) == key
  {
    if path != [] {
      PathNames(root, path);
      JoinColonFree(path);
      ColonFree(Join(path), key);
      SplitJoin(path);
      assert PathKey(path, key)[0] == Join(path)[0];
    }
  }

  /** `c` is the flat key of a leaf with value `v`. */
  ghost predicate Origin(root: Tree, c: string, v: int) {
    exists path, key :: PathKey(path, key) == c && LeafAt(root, path, key, v)
  }

  /** `config` has the flat key of every leaf, and each of its entries is a leaf: one of
      them, where several share a flat key. */
  ghost predicate FlatForm(config: map<string, int>, root: Tree) {
    && (forall path, key, v :: LeafAt(root, path, key, v) ==> PathKey(path, key) in config)
    && (forall c :: c in config ==> Origin(root, c, config[c]))
  }

  /** `config` holds exactly the leaves of the tree, under their flat keys. */
  ghost predicate IsFlat(config: map<string, int>, root: Tree) {
    && (forall path, key, v :: LeafAt(root, path, key, v) ==>
          PathKey(path, key) in config && config[PathKey(path, key)] == v)
    && (forall c :: c in config ==> LeafAt(root, KeyPath(c), KeyName(c), config[c]))
  }

  lemma OriginDecodes(root: Tree, c: string, v: int)
    requires Convertible(root) && Origin(root, c, v)
    ensures LeafAt(root, KeyPath(c), KeyName(c), v)
  {
    var path, key :| PathKey(path, key) == c && LeafAt(root, path, key, v);
    KeyDecodes(root, path, key, v);
  }

  /** The leaves of a convertible tree do not overwrite each other. */
  lemma FlatFormIsFlat(config: map<string, int>, root: Tree)
    requires Convertible(root) && FlatForm(config, root)
    ensures IsFlat(config, root)
  {
    forall c | c in config
      ensures LeafAt(root, KeyPath(c), KeyName(c), config[c])
    {
      OriginDecodes(root, c, config[c]);
    }
    forall path, key, v | LeafAt(root, path, key, v)
      ensures PathKey(path, key) in config && config[PathKey(path, key)] == v
    {
      KeyDecodes(root, path, key, v);
    }
  }

  // ------------------------------------------------------------- flattening

  /** Paths of all dictionaries. */
  ghost function DictPaths(t: Tree): (s: set<Path>)
    ensures forall p :: p in s <==> HasDict(t, p)
  {
    if !t.Node? then {}
    else
      var s := {[]} + set k, p | k in t.kids && p in DictPaths(t.kids[k]) :: [k] + p;
      assert forall p :: HasDict(t, p) && p != [] ==> p == [p[0]] + p[1..];
      assert forall k, p :: k in t.kids && p in DictPaths(t.kids[k]) ==> ([k] + p)[0] == k && ([k] + p)[1..] == p;
      s
  }

  datatype Entry = Entry(path: Path, dict: Tree)

  ghost predicate Stacked(entries: seq<Entry>, p: Path) {
    exists i :: 0 <= i < |entries| && entries[i].path == p
  }

  /** The worklist: every entry is a dictionary of the tree that has not been processed,
      and a dictionary whose parent has been processed is stacked or processed. */
  ghost predicate Worklist(root: Tree, entries: seq<Entry>, processed: set<Path>) {
    && (forall i :: 0 <= i < |entries| ==>
          && HasDict(root, entries[i].path) && DictAt(root, entries[i].path) == entries[i].dict
          && entries[i].path !in processed)
    && (forall i, j :: 0 <= i < j < |entries| ==> entries[i].path != entries[j].path)
    && (forall p :: p in processed ==> HasDict(root, p))
    && ([] in processed || Stacked(entries, []))
    && (forall p, k :: HasDict(root, p + [k]) ==>
          (p in processed <==> p + [k] in processed || Stacked(entries, p + [k])))
  }

  /** The leaves of the processed dictionaries have entries, and entries are leaves. */
  ghost predicate Emitted(config: map<string, int>, root: Tree, processed: set<Path>) {
    && (forall path, key, v :: path in processed && LeafAt(root, path, key, v) ==> PathKey(path, key) in config)
    && (forall c :: c in config ==> Origin(root, c, config[c]))
  }

  /** The inner loop over `entry.items()` has dealt with the names in `seen`: the values
      among them are in the map. */
  ghost predicate HalfEmitted(config: map<string, int>, root: Tree, processed: set<Path>, path: Path,
                              seen: set<string>)
  {
    && Emitted(config, root, processed)
    && HasDict(root, path)
    && (forall key, v :: key in seen && LeafAt(root, path, key, v) ==> PathKey(path, key) in config)
  }

  /** The entry of a dictionary inside the one at `path`. */
  ghost predicate Child(e: Entry, root: Tree, path: Path, seen: set<string>) {
    && |e.path| == |path| + 1 && e.path[..|path|] == path && e.path[|path|] in seen
    && HasDict(root, e.path) && DictAt(root, e.path) == e.dict
  }

  /** ... and the dictionaries among them are stacked on top of `base`. */
  ghost predicate HalfStacked(entries: seq<Entry>, root: Tree, base: seq<Entry>, path: Path, seen: set<string>) {
    && |entries| >= |base| && entries[..|base|] == base
    && (forall i :: |base| <= i < |entries| ==> Child(entries[i], root, path, seen))
    && (forall i, j :: |base| <= i < j < |entries| ==> entries[i].path != entries[j].path)
    && (forall k :: k in seen && HasDict(root, path + [k]) ==> Stacked(entries, path + [k]))
  }

  lemma EmitLeaf(config: map<string, int>, root: Tree, processed: set<Path>, path: Path, seen: set<string>,
                 key: string, v: int)
    requires HalfEmitted(config, root, processed, path, seen) && LeafAt(root, path, key, v)
    ensures HalfEmitted(config[PathKey(path, key) := v], root, processed, path, seen + {key})
  {
    var next := config[PathKey(path, key) := v];
    forall c | c in next
      ensures Origin(root, c, next[c])
    {
      if c != PathKey(path, key) {
        assert Origin(root, c, config[c]);
      }
    }
  }

  /** `None` is not stored. */
  lemma SkipAbsent(config: map<string, int>, root: Tree, processed: set<Path>, path: Path, seen: set<string>,
                   key: string)
    requires HalfEmitted(config, root, processed, path, seen)
    requires key in DictAt(root, path).kids && !DictAt(root, path).kids[key].Leaf?
    ensures HalfEmitted(config, root, processed, path, seen + {key})
  {
  }

  lemma SkipLeaf(entries: seq<Entry>, root: Tree, base: seq<Entry>, path: Path, seen: set<string>, key: string)
    requires HasDict(root, path) && key in DictAt(root, path).kids && !DictAt(root, path).kids[key].Node?
    requires HalfStacked(entries, root, base, path, seen)
    ensures HalfStacked(entries, root, base, path, seen + {key})
  {
    DictSnoc(root, path, key);
  }

  lemma StackedPush(entries: seq<Entry>, e: Entry, p: Path)
    ensures Stacked(entries + [e], p) <==> Stacked(entries, p) || e.path == p
  {
    var next := entries + [e];
    if i :| 0 <= i < |entries| && entries[i].path == p {
      assert next[i].path == p;
    }
    assert next[|entries|] == e;
  }

  lemma PushDict(entries: seq<Entry>, root: Tree, base: seq<Entry>, path: Path, seen: set<string>, key: string)
    requires HasDict(root, path) && key in DictAt(root, path).kids && DictAt(root, path).kids[key].Node?
    requires HalfStacked(entries, root, base, path, seen) && key !in seen
    ensures HalfStacked(entries + [Entry(path + [key], DictAt(root, path).kids[key])],
                        root, base, path, seen + {key})
  {
    DictSnoc(root, path, key);
    var e := Entry(path + [key], DictAt(root, path).kids[key]);
    var next := entries + [e];
    assert next[..|base|] == base;
    assert Child(e, root, path, seen + {key});
    forall i | |base| <= i < |next|
      ensures Child(next[i], root, path, seen + {key})
    {
      assert i < |entries| ==> next[i] == entries[i] && Child(entries[i], root, path, seen);
    }
    forall i, j | |base| <= i < j < |next|
      ensures next[i].path != next[j].path
    {
      assert Child(entries[i], root, path, seen);
    }
    forall k | k in seen + {key} && HasDict(root, path + [k])
      ensures Stacked(next, path + [k])
    {
      StackedPush(entries, e, path + [k]);
    }
  }

  /** The items loop of one dictionary. */
  method Items(config: map<string, int>, entries: seq<Entry>, path: Path, dict: Tree,
               ghost root: Tree, ghost processed: set<Path>)
    returns (config': map<string, int>, entries': seq<Entry>)
    requires HasDict(root, path) && DictAt(root, path) == dict
    requires Emitted(config, root, processed)
    ensures HalfEmitted(config', root, processed, path, dict.kids.Keys)
    ensures HalfStacked(entries', root, entries, path, dict.kids.Keys)
  {
    config', entries' := config, entries;
    var keys := dict.kids.Keys;
    while keys != {}
      invariant keys <= dict.kids.Keys
      invariant HalfEmitted(config', root, processed, path, dict.kids.Keys - keys)
      invariant HalfStacked(entries', root, entries, path, dict.kids.Keys - keys)
      decreases keys
    {
      var key :| key in keys;
      ghost var seen := dict.kids.Keys - keys;
      var value := dict.kids[key];
      if value.Node? {
        PushDict(entries', root, entries, path, seen, key);
        entries' := entries' + [Entry(path + [key], value)];
        SkipAbsent(config', root, processed, path, seen, key);
      } else {
        if value.Leaf? {
          EmitLeaf(config', root, processed, path, seen, key, value.value);
          config' := config'[PathKey(path, key) := value.value];
        } else {
          SkipAbsent(config', root, processed, path, seen, key);
        }
        SkipLeaf(entries', root, entries, path, seen, key);
      }
      keys := keys - {key};
      assert dict.kids.Keys - keys == seen + {key};
    }
    assert dict.kids.Keys - keys == dict.kids.Keys;
  }

  lemma PopEmitted(root: Tree, processed: set<Path>, config: map<string, int>, path: Path)
    requires HasDict(root, path)
    requires HalfEmitted(config, root, processed, path, DictAt(root, path).kids.Keys)
    ensures Emitted(config, root, processed + {path})
  {
  }

  lemma PushedIsFresh(root: Tree, entries: seq<Entry>, processed: set<Path>, path: Path, k: string)
    requires Worklist(root, entries, processed) && |entries| > 0 && entries[|entries| - 1].path == path
    requires HasDict(root, path + [k])
    ensures path + [k] !in processed && !Stacked(entries, path + [k])
  {
    DictSnoc(root, path, k);
    assert path !in processed;
  }

  lemma PopStacked(root: Tree, entries: seq<Entry>, processed: set<Path>, pushed: seq<Entry>, p: Path)
    requires Worklist(root, entries, processed) && |entries| > 0
    requires var last := entries[|entries| - 1];
             HalfStacked(pushed, root, entries[..|entries| - 1], last.path, last.dict.kids.Keys)
    ensures Stacked(entries, p) ==> p == entries[|entries| - 1].path || Stacked(pushed, p)
    ensures Stacked(pushed, p) ==>
              Stacked(entries, p) || (|p| == |entries[|entries| - 1].path| + 1 && p[..|p| - 1] == entries[|entries| - 1].path)
  {
    var rest := entries[..|entries| - 1];
    StackedPop(entries, p);
    StackedMore(rest, pushed, p);
  }

  /** A child is stacked or processed exactly when its parent has been processed. */
  lemma PopChildren(root: Tree, entries: seq<Entry>, processed: set<Path>, pushed: seq<Entry>, p: Path, k: string)
    requires Worklist(root, entries, processed) && |entries| > 0
    requires var last := entries[|entries| - 1];
             HalfStacked(pushed, root, entries[..|entries| - 1], last.path, last.dict.kids.Keys)
    requires HasDict(root, p + [k])
    ensures var done := processed + {entries[|entries| - 1].path};
            p in done <==> p + [k] in done || Stacked(pushed, p + [k])
  {
    var path := entries[|entries| - 1].path;
    DictSnoc(root, p, k);
    PopStacked(root, entries, processed, pushed, p + [k]);
    assert (p + [k])[..|p + [k]| - 1] == p;
    if p + [k] == path {
      assert entries[|entries| - 1].path == p + [k];
      assert Stacked(entries, p + [k]);
    }
  }

  lemma PopEntries(root: Tree, entries: seq<Entry>, processed: set<Path>, pushed: seq<Entry>)
    requires Worklist(root, entries, processed) && |entries| > 0
    requires var last := entries[|entries| - 1];
             HalfStacked(pushed, root, entries[..|entries| - 1], last.path, last.dict.kids.Keys)
    ensures forall i :: 0 <= i < |pushed| ==>
              && HasDict(root, pushed[i].path) && DictAt(root, pushed[i].path) == pushed[i].dict
              && pushed[i].path !in processed + {entries[|entries| - 1].path}
    ensures forall i, j :: 0 <= i < j < |pushed| ==> pushed[i].path != pushed[j].path
  {
    var path, rest := entries[|entries| - 1].path, entries[..|entries| - 1];
    forall i | 0 <= i < |rest|
      ensures pushed[i] == entries[i]
    {
      assert pushed[..|rest|][i] == rest[i];
    }
    forall i | |rest| <= i < |pushed|
      ensures pushed[i].path !in processed && !Stacked(rest, pushed[i].path)
    {
      var q := pushed[i].path;
      assert q == path + [q[|path|]];
      PushedIsFresh(root, entries, processed, path, q[|path|]);
      StackedPop(entries, q);
    }
    PushedDistinct(rest, pushed, path);
  }

  lemma PopWorklist(root: Tree, entries: seq<Entry>, processed: set<Path>, pushed: seq<Entry>)
    requires Worklist(root, entries, processed) && |entries| > 0
    requires var last := entries[|entries| - 1];
             HalfStacked(pushed, root, entries[..|entries| - 1], last.path, last.dict.kids.Keys)
    ensures Worklist(root, pushed, processed + {entries[|entries| - 1].path})
  {
    PopEntries(root, entries, processed, pushed);
    PopStacked(root, entries, processed, pushed, []);
    forall p, k | HasDict(root, p + [k])
      ensures var done := processed + {entries[|entries| - 1].path};
              p in done <==> p + [k] in done || Stacked(pushed, p + [k])
    {
      PopChildren(root, entries, processed, pushed, p, k);
    }
  }

  lemma StackedPop(entries: seq<Entry>, p: Path)
    requires |entries| > 0
    ensures Stacked(entries, p) <==> p == entries[|entries| - 1].path || Stacked(entries[..|entries| - 1], p)
  {
    var rest := entries[..|entries| - 1];
    if i :| 0 <= i < |entries| && entries[i].path == p {
      if i < |rest| {
        assert rest[i].path == p;
      }
    }
    if i :| 0 <= i < |rest| && rest[i].path == p {
      assert entries[i].path == p;
    }
    if p == entries[|entries| - 1].path {
      assert entries[|entries| - 1].path == p;
    }
  }

  lemma StackedMore(rest: seq<Entry>, pushed: seq<Entry>, p: Path)
    requires |rest| <= |pushed| && pushed[..|rest|] == rest
    ensures Stacked(rest, p) ==> Stacked(pushed, p)
    ensures Stacked(pushed, p) ==> Stacked(rest, p) || exists i :: |rest| <= i < |pushed| && pushed[i].path == p
  {
    if i :| 0 <= i < |rest| && rest[i].path == p {
      assert pushed[..|rest|][i] == pushed[i];
    }
    if i :| 0 <= i < |pushed| && pushed[i].path == p {
      if i < |rest| {
        assert pushed[..|rest|][i] == rest[i];
      }
    }
  }

  lemma PushedDistinct(rest: seq<Entry>, pushed: seq<Entry>, path: Path)
    requires |rest| <= |pushed| && pushed[..|rest|] == rest
    requires forall i, j :: 0 <= i < j < |rest| ==> rest[i].path != rest[j].path
    requires forall i, j :: |rest| <= i < j < |pushed| ==> pushed[i].path != pushed[j].path
    requires forall i :: |rest| <= i < |pushed| ==> !Stacked(rest, pushed[i].path)
    ensures forall i, j :: 0 <= i < j < |pushed| ==> pushed[i].path != pushed[j].path
  {
    forall i, j | 0 <= i < j < |pushed|
      ensures pushed[i].path != pushed[j].path
    {
      if i < |rest| {
        assert pushed[..|rest|][i] == rest[i];
        if j < |rest| {
          assert pushed[..|rest|][j] == rest[j];
        } else {
          assert !Stacked(rest, pushed[j].path);
        }
      }
    }
  }

  /** With nothing stacked, every dictionary has been processed. */
  lemma {:induction false} NothingLeft(root: Tree, processed: set<Path>, p: Path)
    requires Worklist(root, [], processed) && HasDict(root, p)
    ensures p in processed
  {
    if p != [] {
      var init, k := p[..|p| - 1], p[|p| - 1];
      assert p == init + [k];
      DictSnoc(root, init, k);
      NothingLeft(root, processed, init);
    }
  }

  /** `python_to_pressio_options`: for every nested dictionary the worklist ends, and the
      flat map has an entry for every value and none besides; of a convertible tree it
      holds exactly the leaves. */
  method Flatten(root: Tree) returns (config: map<string, int>)
    requires root.Node?
    ensures FlatForm(config, root)
    ensures Convertible(root) ==> IsFlat(config, root)
  {
    config := map[];
    var entries := [Entry([], root)];
    ghost var processed: set<Path> := {};
    assert entries[0].path == [];
    while entries != []
      invariant Worklist(root, entries, processed) && Emitted(config, root, processed)
      decreases DictPaths(root) - processed
    {
      var last := entries[|entries| - 1];
      ghost var before := entries;
      assert last.path in DictPaths(root) - processed;
      config, entries := Items(config, entries[..|entries| - 1], last.path, last.dict, root, processed);
      PopEmitted(root, processed, config, last.path);
      PopWorklist(root, before, processed, entries);
      processed := processed + {last.path};
    }
    forall path, key, v | LeafAt(root, path, key, v)
      ensures path in processed
    {
      NothingLeft(root, processed, path);
    }
    if Convertible(root) {
      FlatFormIsFlat(config, root);
    }
  }

  // ------------------------------------------------------------- rebuilding

  /** `t` is what has been built so far of `root`. */
  ghost predicate Below(t: Tree, root: Tree) {
    match t
    case Leaf(v) => root == t
    case Absent => false
    case Node(kids) => root.Node? && forall k :: k in kids ==> k in root.kids && Below(kids[k], root.kids[k])
  }

  /** A value stands where a dictionary is needed on the way along `path`. */
  predicate Blocked(t: Tree, path: Path)
    decreases |path|
  {
    !t.Node? || (path != [] && path[0] in t.kids && Blocked(t.kids[path[0]], path[1..]))
  }

  /** Something other than a dictionary stands at the first `n` names of `path`. */
  predicate ValueAt(t: Tree, path: Path, n: nat)
    requires n <= |path|
  {
    Subtree(t, path[..n]).Some? && !Subtree(t, path[..n]).value.Node?
  }

  lemma ValueBelow(t: Tree, path: Path, n: nat)
    requires path != [] && t.Node? && path[0] in t.kids && n < |path|
    ensures ValueAt(t, path, n + 1) <==> ValueAt(t.kids[path[0]], path[1..], n)
  {
    assert path[..n + 1][0] == path[0] && path[..n + 1][1..] == path[1..][..n];
  }

  /** Storing is blocked exactly when something other than a dictionary stands at the path
      or on the way to it. */
  lemma {:induction false} BlockedExact(t: Tree, path: Path)
    ensures Blocked(t, path) <==> exists n: nat :: n <= |path| && ValueAt(t, path, n)
    decreases |path|
  {
    assert ValueAt(t, path, 0) <==> !t.Node?;
    if path != [] && t.Node? {
      if path[0] in t.kids {
        var kid, rest := t.kids[path[0]], path[1..];
        BlockedExact(kid, rest);
        if n: nat :| n <= |rest| && ValueAt(kid, rest, n) {
          ValueBelow(t, path, n);
          assert ValueAt(t, path, n + 1);
        }
        if n: nat :| n <= |path| && ValueAt(t, path, n) {
          ValueBelow(t, path, n - 1);
          assert ValueAt(kid, rest, n - 1);
        }
      } else {
        forall n: nat | n <= |path|
          ensures !ValueAt(t, path, n)
        {
          assert n > 0 ==> path[..n][0] == path[0];
        }
      }
    }
  }

  /** Stores a value, creating the dictionaries on the way to it. */
  function Insert(t: Tree, path: Path, key: string, v: int): (r: Tree)
    requires !Blocked(t, path)
    ensures r.Node?
    decreases |path|
  {
    if path == [] then Node(t.kids[key := Leaf(v)])
    else
      var child := if path[0] in t.kids then t.kids[path[0]] else Node(map[]);
      Node(t.kids[path[0] := Insert(child, path[1..], key, v)])
  }

  lemma {:induction false} NotBlocked(t: Tree, root: Tree, path: Path)
    requires Below(t, root) && HasDict(root, path)
    ensures !Blocked(t, path)
    decreases |path|
  {
    if path != [] && t.Node? && path[0] in t.kids {
      NotBlocked(t.kids[path[0]], root.kids[path[0]], path[1..]);
    }
  }

  /** Storing a leaf of the tree meets no value on its way, and stays below the tree. */
  lemma {:induction false} InsertBelow(t: Tree, root: Tree, path: Path, key: string, v: int)
    requires Below(t, root) && LeafAt(root, path, key, v)
    ensures !Blocked(t, path)
    ensures Below(Insert(t, path, key, v), root)
    ensures LeafAt(Insert(t, path, key, v), path, key, v)
    decreases |path|
  {
    NotBlocked(t, root, path);
    if path != [] {
      assert HasDict(root.kids[path[0]], path[1..]) && root.kids[path[0]].Node?;
      var child := if path[0] in t.kids then t.kids[path[0]] else Node(map[]);
      if path[0] in t.kids {
        assert Below(t.kids[path[0]], root.kids[path[0]]);
      }
      InsertBelow(child, root.kids[path[0]], path[1..], key, v);
    }
  }

  /** Storing one leaf keeps the others. */
  lemma {:induction false} InsertKeeps(t: Tree, root: Tree, path: Path, key: string, v: int,
                                       q: Path, name: string, w: int)
    requires Below(t, root) && LeafAt(root, path, key, v) && !Blocked(t, path)
    requires LeafAt(root, q, name, w) && LeafAt(t, q, name, w)
    ensures LeafAt(Insert(t, path, key, v), q, name, w)
    decreases |path|
  {
    if path == [] || q == [] {
      if path == [] && q == [] {
        assert name == key ==> v == w;
      } else if path == [] {
        assert HasDict(root.kids[q[0]], q[1..]) && root.kids[key] == Leaf(v);
      } else {
        assert HasDict(root.kids[path[0]], path[1..]) && root.kids[name] == Leaf(w);
      }
    } else if path[0] == q[0] {
      assert HasDict(root.kids[path[0]], path[1..]) && HasDict(t.kids[path[0]], q[1..]);
      assert Below(t.kids[path[0]], root.kids[path[0]]);
      InsertKeeps(t.kids[path[0]], root.kids[path[0]], path[1..], key, v, q[1..], name, w);
    }
  }

  lemma {:induction false} SomeLeaf(t: Tree) returns (path: Path, key: string, v: int)
    requires t.Node? && t.kids != map[] && WellNamed(t)
    ensures LeafAt(t, path, key, v)
  {
    var k :| k in t.kids;
    match t.kids[k] {
      case Leaf(w) => path, key, v := [], k, w;
      case Absent => assert false;
      case Node(_) =>
        path, key, v := SomeLeaf(t.kids[k]);
        assert ([k] + path)[1..] == path;
        path := [k] + path;
    }
  }

  lemma LeafUnder(t: Tree, k: string, path: Path, key: string, v: int)
    requires t.Node? && k in t.kids && LeafAt(t.kids[k], path, key, v)
    ensures LeafAt(t, [k] + path, key, v)
  {
    assert ([k] + path)[1..] == path;
  }

  lemma LeafBelow(t: Tree, k: string, path: Path, key: string, v: int)
    requires LeafAt(t, [k] + path, key, v)
    ensures t.Node? && k in t.kids && LeafAt(t.kids[k], path, key, v)
  {
    assert ([k] + path)[1..] == path;
  }

  /** A partial tree that has all the leaves is the tree. */
  lemma {:induction false} AllLeaves(t: Tree, root: Tree)
    requires Below(t, root) && WellNamed(root)
    requires forall path, key, v :: LeafAt(root, path, key, v) ==> LeafAt(t, path, key, v)
    ensures t == root
    decreases root
  {
    if root.Node? && t.Node? {
      forall k | k in root.kids
        ensures k in t.kids && t.kids[k] == root.kids[k]
      {
        match root.kids[k] {
          case Leaf(v) =>
            assert LeafAt(root, [], k, v);
          case Absent =>
            assert false;
          case Node(_) =>
            var p, name, w := SomeLeaf(root.kids[k]);
            LeafUnder(root, k, p, name, w);
            LeafBelow(t, k, p, name, w);
            forall path, key, v | LeafAt(root.kids[k], path, key, v)
              ensures LeafAt(t.kids[k], path, key, v)
            {
              LeafUnder(root, k, path, key, v);
              LeafBelow(t, k, path, key, v);
            }
            AllLeaves(t.kids[k], root.kids[k]);
        }
      }
      assert t.kids.Keys == root.kids.Keys;
    }
  }

  ghost predicate Listed(items: seq<(string, int)>, c: string) {
    exists i :: 0 <= i < |items| && items[i].0 == c
  }

  /** `items` enumerates the entries of `config`. */
  ghost predicate Enumerates(items: seq<(string, int)>, config: map<string, int>) {
    && (forall i :: 0 <= i < |items| ==> items[i].0 in config && config[items[i].0] == items[i].1)
    && (forall c :: c in config ==> Listed(items, c))
  }

  // ------------------------------------------------------- storing one key

  /** `set_option` on values: where a value stands in the way, the error is swallowed
      and the option skipped. */
  function SetAt(options: Tree, key: string, value: int): (r: Tree)
    requires options.Node?
    ensures r.Node?
  {
    if Blocked(options, KeyPath(key)) then options else Insert(options, KeyPath(key), KeyName(key), value)
  }

  /** The subtree at `q`. */
  function Subtree(t: Tree, q: Path): Option<Tree>
    decreases |q|
  {
    if q == [] then Some(t)
    else if t.Node? && q[0] in t.kids then Subtree(t.kids[q[0]], q[1..])
    else None
  }

  /** At `q`, `r` is `t` with `v` stored at `full`: nothing remains below it, a dictionary
      leads to it, and anywhere else `r` is as `t` was. */
  predicate StoredAt(t: Tree, r: Tree, full: Path, v: int, q: Path) {
    if q == full then Subtree(r, q) == Some(Leaf(v))
    else if full < q then Subtree(r, q) == None
    else if q < full then Subtree(r, q).Some? && Subtree(r, q).value.Node?
    else Subtree(r, q) == Subtree(t, q)
  }

  ghost predicate Stores(t: Tree, r: Tree, full: Path, v: int) {
    forall q :: StoredAt(t, r, full, v, q)
  }

  lemma PrefixStep(a: Path, b: Path)
    requires a != [] && b != [] && a[0] == b[0]
    ensures a == b <==> a[1..] == b[1..]
    ensures a < b <==> a[1..] < b[1..]
  {
    assert a == [a[0]] + a[1..] && b == [b[0]] + b[1..];
  }

  lemma {:induction false} InsertStoresAt(t: Tree, path: Path, key: string, v: int, q: Path)
    requires !Blocked(t, path)
    ensures StoredAt(t, Insert(t, path, key, v), path + [key], v, q)
    decreases |path|
  {
    var full := path + [key];
    if q != [] && q[0] == full[0] {
      PrefixStep(q, full);
      PrefixStep(full, q);
      if path == [] {
        assert full[1..] == [];
      } else {
        assert full[1..] == path[1..] + [key];
        var child := if path[0] in t.kids then t.kids[path[0]] else Node(map[]);
        InsertStoresAt(child, path[1..], key, v, q[1..]);
      }
    }
  }

  /** Storing changes the tree at one place only. */
  lemma InsertStores(t: Tree, path: Path, key: string, v: int)
    requires !Blocked(t, path)
    ensures Stores(t, Insert(t, path, key, v), path + [key], v)
  {
    forall q
      ensures StoredAt(t, Insert(t, path, key, v), path + [key], v, q)
    {
      InsertStoresAt(t, path, key, v, q);
    }
  }

  /** A subtree put back under the dictionaries that were passed on the way to it. */
  function Wrapped(above: seq<Tree>, path: Path, t: Tree): Tree
    requires |above| == |path| && forall i :: 0 <= i < |above| ==> above[i].Node?
  {
    if path == [] then t
    else
      var n := |path| - 1;
      Wrapped(above[..n], path[..n], Node(above[n].kids[path[n] := t]))
  }

  /** The descent has reached `t` through `above` without creating anything that a value
      could block. */
  ghost predicate Descended(options: Tree, path: Path, key: string, v: int, above: seq<Tree>, t: Tree) {
    && |above| <= |path| && (forall i :: 0 <= i < |above| ==> above[i].Node?)
    && (Blocked(t, path[|above|..]) <==> Blocked(options, path))
    && (!Blocked(options, path) ==>
          Wrapped(above, path[..|above|], Insert(t, path[|above|..], key, v)) == Insert(options, path, key, v))
  }

  lemma DescendStep(options: Tree, path: Path, key: string, v: int, above: seq<Tree>, t: Tree)
    requires Descended(options, path, key, v, above, t) && |above| < |path| && t.Node?
    ensures var k := path[|above|];
            Descended(options, path, key, v, above + [t], if k in t.kids then t.kids[k] else Node(map[]))
  {
    var n := |above|;
    assert path[n..][1..] == path[n + 1..];
    assert (above + [t])[..n] == above && path[..n + 1][..n] == path[..n];
  }

  /** `set_option`: a key behind a slash is hierarchical; missing dictionaries are created
      on the way down. */
  method SetOption(options: Tree, key: string, value: int) returns (r: Tree)
    requires options.Node?
    ensures r == SetAt(options, key, value)
    ensures Blocked(options, KeyPath(key)) ==> r == options
    ensures !Blocked(options, KeyPath(key)) ==> Stores(options, r, KeyPath(key) + [KeyName(key)], value)
  {
    if !Blocked(options, KeyPath(key)) {
      InsertStores(options, KeyPath(key), KeyName(key), value);
    }
    if key == "" || key[0] != '/' {
      return Node(options.kids[key := Leaf(value)]);
    }
    var path, name := Split(BeforeColon(key)), AfterColon(key);
    var t := options;
    var above: seq<Tree> := [];
    for i := 0 to |path|
      invariant |above| == i && Descended(options, path, name, value, above, t)
    {
      if !t.Node? {
        return options;
      }
      DescendStep(options, path, name, value, above, t);
      above := above + [t];
      t := if path[i] in t.kids then t.kids[path[i]] else Node(map[]);
    }
    if !t.Node? {
      return options;
    }
    assert above[..|path|] == above && path[|path|..] == [];
    t := Insert(t, [], name, value);
    for i := |path| downto 0
      invariant Wrapped(above[..i], path[..i], t) == Insert(options, path, name, value)
    {
      assert above[..i + 1][..i] == above[..i] && path[..i + 1][..i] == path[..i];
      t := Node(above[i].kids[path[i] := t]);
    }
    return t;
  }

  /** The first `n` items have been stored. */
  ghost predicate Stored(t: Tree, root: Tree, items: seq<(string, int)>, n: nat)
    requires n <= |items|
  {
    && t.Node? && Below(t, root)
    && forall k :: 0 <= k < n ==> LeafAt(t, KeyPath(items[k].0), KeyName(items[k].0), items[k].1)
  }

  lemma StoreOne(t: Tree, root: Tree, items: seq<(string, int)>, n: nat)
    requires n < |items| && Stored(t, root, items, n)
    requires forall k :: 0 <= k <= n ==> LeafAt(root, KeyPath(items[k].0), KeyName(items[k].0), items[k].1)
    ensures !Blocked(t, KeyPath(items[n].0))
    ensures Stored(Insert(t, KeyPath(items[n].0), KeyName(items[n].0), items[n].1), root, items, n + 1)
  {
    var path, key, v := KeyPath(items[n].0), KeyName(items[n].0), items[n].1;
    InsertBelow(t, root, path, key, v);
    forall k | 0 <= k < n
      ensures LeafAt(Insert(t, path, key, v), KeyPath(items[k].0), KeyName(items[k].0), items[k].1)
    {
      InsertKeeps(t, root, path, key, v, KeyPath(items[k].0), KeyName(items[k].0), items[k].1);
    }
  }

  lemma StoredAll(t: Tree, root: Tree, items: seq<(string, int)>, config: map<string, int>)
    requires Convertible(root) && IsFlat(config, root) && Enumerates(items, config)
    requires Stored(t, root, items, |items|)
    ensures t == root
  {
    forall path, key, v | LeafAt(root, path, key, v)
      ensures LeafAt(t, path, key, v)
    {
      KeyDecodes(root, path, key, v);
      var c := PathKey(path, key);
      assert c in config && config[c] == v;
      var i :| 0 <= i < |items| && items[i].0 == c;
    }
    AllLeaves(t, root);
  }

  // --------------------------------------------- what rebuilding can yield

  /** All entries stored, one after the other. */
  function Rebuilt(items: seq<(string, int)>): (t: Tree)
    ensures t.Node?
  {
    if items == [] then Node(map[])
    else
      var n := |items| - 1;
      SetAt(Rebuilt(items[..n]), items[n].0, items[n].1)
  }

  /** `pressio_options_to_python`. */
  method Rebuild(items: seq<(string, int)>) returns (options: Tree)
    ensures options == Rebuilt(items)
  {
    options := Node(map[]);
    for i := 0 to |items|
      invariant options.Node? && options == Rebuilt(items[..i])
    {
      assert items[..i + 1][..i] == items[..i];
      options := SetOption(options, items[i].0, items[i].1);
    }
    assert items[..|items|] == items;
  }

  lemma {:induction false} SplitClean(s: string)
    ensures forall i :: 0 <= i < |Split(s)| ==> '/' !in Split(s)[i] && forall c :: c in Split(s)[i] ==> c in s
    decreases |s|
  {
    match LastSlash(s) {
      case None =>
      case Some(p) => SplitClean(s[..p]);
    }
  }

  /** No name read out of a key has a separator in it, and keys of the outermost
      dictionary do not start with a slash. */
  lemma KeyClean(s: string)
    ensures forall i :: 0 <= i < |KeyPath(s)| ==> '/' !in KeyPath(s)[i] && ':' !in KeyPath(s)[i]
    ensures KeyPath(s) == [] ==> !Leading(KeyName(s))
  {
    BeforeClean(s);
    SplitClean(BeforeColon(s));
  }

  lemma {:induction false} InsertWellNamed(t: Tree, path: Path, key: string, v: int)
    requires WellNamed(t) && !Blocked(t, path)
    requires forall i :: 0 <= i < |path| ==> '/' !in path[i] && ':' !in path[i]
    ensures WellNamed(Insert(t, path, key, v)) && Insert(t, path, key, v).kids != map[]
    decreases |path|
  {
    var k := if path == [] then key else path[0];
    assert k in Insert(t, path, key, v).kids;
    if path != [] {
      var child := if k in t.kids then t.kids[k] else Node(map[]);
      InsertWellNamed(child, path[1..], key, v);
    }
  }

  /** Whatever the entries are, the result is convertible. */
  lemma {:induction false} RebuiltConvertible(items: seq<(string, int)>)
    ensures Convertible(Rebuilt(items))
  {
    if items != [] {
      var n := |items| - 1;
      RebuiltConvertible(items[..n]);
      var t, key := Rebuilt(items[..n]), items[n].0;
      KeyClean(key);
      if !Blocked(t, KeyPath(key)) {
        InsertWellNamed(t, KeyPath(key), KeyName(key), items[n].1);
      }
    }
  }

  lemma ItemsAreLeaves(items: seq<(string, int)>, config: map<string, int>, root: Tree)
    requires IsFlat(config, root) && Enumerates(items, config)
    ensures forall k :: 0 <= k < |items| ==> LeafAt(root, KeyPath(items[k].0), KeyName(items[k].0), items[k].1)
  {
  }

  lemma RebuiltMore(items: seq<(string, int)>, n: nat)
    requires n < |items|
    ensures Rebuilt(items[..n + 1]) == SetAt(Rebuilt(items[..n]), items[n].0, items[n].1)
  {
    assert items[..n + 1][..n] == items[..n];
  }

  lemma {:induction false} RebuiltStored(items: seq<(string, int)>, n: nat, root: Tree)
    requires n <= |items| && root.Node?
    requires forall k :: 0 <= k < |items| ==> LeafAt(root, KeyPath(items[k].0), KeyName(items[k].0), items[k].1)
    ensures Stored(Rebuilt(items[..n]), root, items, n)
  {
    if n == 0 {
      assert items[..0] == [];
    } else {
      RebuiltStored(items, n - 1, root);
      RebuiltMore(items, n - 1);
      StoreOne(Rebuilt(items[..n - 1]), root, items, n - 1);
    }
  }

  lemma ConvertibleReturns(root: Tree, config: map<string, int>, items: seq<(string, int)>)
    requires Convertible(root) && FlatForm(config, root) && Enumerates(items, config)
    ensures Rebuilt(items) == root
  {
    FlatFormIsFlat(config, root);
    ItemsAreLeaves(items, config, root);
    RebuiltStored(items, |items|, root);
    assert items[..|items|] == items;
    StoredAll(Rebuilt(items), root, items, config);
  }

  /** Flattening a nested dictionary and rebuilding from the entries, in any order, gives
      the same dictionary exactly when it is convertible. */
  lemma FlattenRebuildExact(root: Tree, config: map<string, int>, items: seq<(string, int)>)
    requires root.Node? && FlatForm(config, root) && Enumerates(items, config)
    ensures Rebuilt(items) == root <==> Convertible(root)
  {
    RebuiltConvertible(items);
    if Convertible(root) {
      ConvertibleReturns(root, config, items);
    }
  }

  lemma ListedMore(items: seq<(string, int)>, item: (string, int), c: string)
    requires Listed(items, c) || item.0 == c
    ensures Listed(items + [item], c)
  {
    var more := items + [item];
    if i :| 0 <= i < |items| && items[i].0 == c {
      assert more[i].0 == c;
    }
    assert more[|items|] == item;
  }

  /** The entries of a map, in some order. */
  method Entries(config: map<string, int>) returns (items: seq<(string, int)>)
    ensures Enumerates(items, config)
  {
    items := [];
    var keys := config.Keys;
    while keys != {}
      invariant keys <= config.Keys
      invariant forall i :: 0 <= i < |items| ==> items[i].0 in config && config[items[i].0] == items[i].1
      invariant forall c :: c in config.Keys - keys ==> Listed(items, c)
      decreases keys
    {
      var c :| c in keys;
      forall d | d in config.Keys - (keys - {c})
        ensures Listed(items + [(c, config[c])], d)
      {
        ListedMore(items, (c, config[c]), d);
      }
      items := items + [(c, config[c])];
      keys := keys - {c};
    }
  }

  /** `python_to_pressio_options` followed by `pressio_options_to_python`. */
  method FlattenThenRebuild(root: Tree) returns (back: Tree)
    requires root.Node?
    ensures back == root <==> Convertible(root)
  {
    var config := Flatten(root);
    var items := Entries(config);
    back := Rebuild(items);
    FlattenRebuildExact(root, config, items);
  }

  /** An empty dictionary inside another one is lost. */
  lemma EmptyDictLost()
    ensures var root := Node(map["a" := Node(map[])]);
            FlatForm(map[], root) && Enumerates([], map[]) && Rebuilt([]) == Node(map[]) != root
  {
    var root := Node(map["a" := Node(map[])]);
    forall path, key, v
      ensures !LeafAt(root, path, key, v)
    {
      if path != [] && HasDict(root, path) {
        var inner: Tree := Node(map[]);
        assert path[0] == "a" && root.kids[path[0]] == inner && HasDict(inner, path[1..]);
        assert path[1..] == [] && DictAt(root, path) == inner;
      }
    }
    assert "a" in root.kids;
  }
}
