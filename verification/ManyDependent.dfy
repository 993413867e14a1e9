/** The dependent pipeline: task 0 starts alone; every response frees a worker and
    supplies the options of the tasks pushed next.  Responses arrive in any order. */
module ManyDependent {
  import opened Groups

  type Options = map<string, int>

  datatype Request = Request(index: nat, options: Options)

  datatype Response<T> = Response(index: nat, metrics: Options, data: seq<T>)

  /** A push: the request, and how many responses had been handled by then. */
  datatype Push = Push(request: Request, after: nat)

  datatype Config = Config(labels: seq<int>, workers: nat, fromNames: seq<string>, toNames: seq<string>)

  /** The task manager's queue and the master's counters, with the history of pushes
      and responses. */
  datatype State<T> = State(outstanding: nat, nextTask: nat, pending: seq<Request>, outputs: seq<T>,
                            pushed: seq<Push>, handled: seq<Response<T>>)

  predicate ValidConfig(c: Config) {
    |c.labels| >= 1 && |c.fromNames| >= |c.toNames|
  }

  // ------------------------------------------------------------- options

  /** Length of the run of names, from `i` on, that are all present. */
  function Found(names: seq<string>, n: nat, metrics: Options, i: nat): (m: nat)
    requires i <= n <= |names|
    ensures i <= m <= n && (forall k :: i <= k < m ==> names[k] in metrics)
    ensures m < n ==> names[m] !in metrics
    decreases n - i
  {
    if i < n && names[i] in metrics then Found(names, n, metrics, i + 1) else i
  }

  /** The first `m` metrics, renamed; a later name wins over an equal earlier one. */
  function Renamed(fromNames: seq<string>, toNames: seq<string>, metrics: Options, m: nat): Options
    requires m <= |fromNames| && m <= |toNames| && forall k :: 0 <= k < m ==> fromNames[k] in metrics
  {
    if m == 0 then map[]
    else Renamed(fromNames, toNames, metrics, m - 1)[toNames[m - 1] := metrics[fromNames[m - 1]]]
  }

  /** Both loops over the names: they stop at the first one missing. */
  function NewOptions(fromNames: seq<string>, toNames: seq<string>, metrics: Options): Options
    requires |fromNames| >= |toNames|
  {
    Renamed(fromNames, toNames, metrics, Found(fromNames, |toNames|, metrics, 0))
  }

  /** Pair `k` is the last of the first `m` with its target name. */
  predicate LastWith(toNames: seq<string>, m: nat, k: nat)
    requires m <= |toNames|
  {
    k < m && forall l :: k < l < m ==> toNames[l] != toNames[k]
  }

  /** `options` is what the first `m` pairs of names make of the metrics: each value
      under its target name, the last pair with that target deciding, and no other key;
      and pair `m` is the first whose metric is missing, or there is none. */
  ghost predicate Translates(fromNames: seq<string>, toNames: seq<string>, metrics: Options, options: Options, m: nat)
    requires |fromNames| >= |toNames|
  {
    && m <= |toNames| && (forall k :: 0 <= k < m ==> fromNames[k] in metrics)
    && (m < |toNames| ==> fromNames[m] !in metrics)
    && (forall key :: key in options ==> key in toNames[..m])
    && (forall k: nat :: LastWith(toNames, m, k) ==>
          toNames[k] in options && options[toNames[k]] == metrics[fromNames[k]])
  }

  ghost predicate Translated(fromNames: seq<string>, toNames: seq<string>, metrics: Options, options: Options)
    requires |fromNames| >= |toNames|
  {
    exists m: nat :: Translates(fromNames, toNames, metrics, options, m)
  }

  lemma {:induction false} RenamedLast(fromNames: seq<string>, toNames: seq<string>, metrics: Options, m: nat, k: nat)
    requires m <= |fromNames| && m <= |toNames| && forall l :: 0 <= l < m ==> fromNames[l] in metrics
    requires LastWith(toNames, m, k)
    ensures var options := Renamed(fromNames, toNames, metrics, m);
            toNames[k] in options && options[toNames[k]] == metrics[fromNames[k]]
  {
    if k < m - 1 {
      assert toNames[m - 1] != toNames[k];
      RenamedLast(fromNames, toNames, metrics, m - 1, k);
    }
  }

  lemma {:induction false} RenamedOnly(fromNames: seq<string>, toNames: seq<string>, metrics: Options, m: nat, key: string)
    requires m <= |fromNames| && m <= |toNames| && forall l :: 0 <= l < m ==> fromNames[l] in metrics
    requires key in Renamed(fromNames, toNames, metrics, m)
    ensures key in toNames[..m]
  {
    assert toNames[..m] == toNames[..m - 1] + [toNames[m - 1]];
    if key != toNames[m - 1] {
      RenamedOnly(fromNames, toNames, metrics, m - 1, key);
    }
  }

  lemma NewOptionsTranslated(fromNames: seq<string>, toNames: seq<string>, metrics: Options)
    requires |fromNames| >= |toNames|
    ensures Translated(fromNames, toNames, metrics, NewOptions(fromNames, toNames, metrics))
  {
    var m := Found(fromNames, |toNames|, metrics, 0);
    var options := Renamed(fromNames, toNames, metrics, m);
    forall k: nat | LastWith(toNames, m, k)
      ensures toNames[k] in options && options[toNames[k]] == metrics[fromNames[k]]
    {
      RenamedLast(fromNames, toNames, metrics, m, k);
    }
    forall key | key in options
      ensures key in toNames[..m]
    {
      RenamedOnly(fromNames, toNames, metrics, m, key);
    }
    assert Translates(fromNames, toNames, metrics, options, m);
  }

  lemma {:induction false} LastPair(toNames: seq<string>, m: nat, key: string) returns (k: nat)
    requires m <= |toNames| && key in toNames[..m]
    ensures LastWith(toNames, m, k) && toNames[k] == key
  {
    if toNames[m - 1] == key {
      k := m - 1;
    } else {
      assert toNames[..m] == toNames[..m - 1] + [toNames[m - 1]];
      k := LastPair(toNames, m - 1, key);
    }
  }

  /** The names and the metrics determine the options. */
  lemma TranslatedOnce(fromNames: seq<string>, toNames: seq<string>, metrics: Options, a: Options, b: Options)
    requires |fromNames| >= |toNames|
    requires Translated(fromNames, toNames, metrics, a) && Translated(fromNames, toNames, metrics, b)
    ensures a == b
  {
    var m: nat :| Translates(fromNames, toNames, metrics, a, m);
    var n: nat :| Translates(fromNames, toNames, metrics, b, n);
    assert m == n;
    forall key | key in a || key in b
      ensures key in a && key in b && a[key] == b[key]
    {
      var k := LastPair(toNames, m, key);
    }
    assert a.Keys == b.Keys;
  }

  /** Both loops over the names, which stop at the first metric missing. */
  method RenameFound(fromNames: seq<string>, toNames: seq<string>, metrics: Options)
    returns (options: Options, missing: bool)
    requires |fromNames| >= |toNames|
    ensures options == NewOptions(fromNames, toNames, metrics)
    ensures missing <==> exists k :: 0 <= k < |toNames| && fromNames[k] !in metrics
  {
    options := map[];
    for i := 0 to |toNames|
      invariant forall k :: 0 <= k < i ==> fromNames[k] in metrics
      invariant Found(fromNames, |toNames|, metrics, 0) == Found(fromNames, |toNames|, metrics, i)
      invariant options == Renamed(fromNames, toNames, metrics, i)
    {
      if fromNames[i] !in metrics {
        return options, true;
      }
      options := options[toNames[i] := metrics[fromNames[i]]];
    }
    return options, false;
  }

  method TranslateOptions(fromNames: seq<string>, toNames: seq<string>, metrics: Options)
    returns (options: Options, missing: bool)
    requires |fromNames| >= |toNames|
    ensures Translated(fromNames, toNames, metrics, options)
    ensures missing <==> exists k :: 0 <= k < |toNames| && fromNames[k] !in metrics
  {
    options, missing := RenameFound(fromNames, toNames, metrics);
    NewOptionsTranslated(fromNames, toNames, metrics);
  }

  lemma {:induction false} RenamedKeys(fromNames: seq<string>, metrics: Options, m: nat, key: string)
    requires m <= |fromNames| && forall k :: 0 <= k < m ==> fromNames[k] in metrics
    ensures key in Renamed(fromNames, fromNames, metrics, m) <==> key in fromNames[..m]
    ensures key in fromNames[..m] ==> Renamed(fromNames, fromNames, metrics, m)[key] == metrics[key]
  {
    if m > 0 {
      RenamedKeys(fromNames, metrics, m - 1, key);
      assert fromNames[..m] == fromNames[..m - 1] + [fromNames[m - 1]];
    }
  }

  lemma {:induction false} RenamedSame(fromNames: seq<string>, toNames: seq<string>, a: Options, b: Options, m: nat)
    requires m <= |fromNames| && m <= |toNames|
    requires forall k :: 0 <= k < m ==> fromNames[k] in a && fromNames[k] in b && a[fromNames[k]] == b[fromNames[k]]
    ensures Renamed(fromNames, toNames, a, m) == Renamed(fromNames, toNames, b, m)
  {
    if m > 0 {
      RenamedSame(fromNames, toNames, a, b, m - 1);
    }
  }

  /** The worker copies the metrics under their own names and the master renames the
      copies: the detour through the response changes nothing. */
  lemma OptionsSurviveResponse(c: Config, metrics: Options)
    requires ValidConfig(c)
    ensures var n := |c.toNames|;
            var sent := NewOptions(c.fromNames, c.fromNames[..n], metrics);
            NewOptions(c.fromNames, c.toNames, sent) == NewOptions(c.fromNames, c.toNames, metrics)
  {
    var n := |c.toNames|;
    var m := Found(c.fromNames, n, metrics, 0);
    var sent := NewOptions(c.fromNames, c.fromNames[..n], metrics);
    RenamedPrefix(c.fromNames, n, metrics, m);
    forall k | 0 <= k < n
      ensures c.fromNames[k] in sent <==> c.fromNames[k] in c.fromNames[..m]
      ensures c.fromNames[k] in sent ==> c.fromNames[k] in metrics && sent[c.fromNames[k]] == metrics[c.fromNames[k]]
    {
      RenamedKeys(c.fromNames, metrics, m, c.fromNames[k]);
    }
    forall k | 0 <= k < m
      ensures c.fromNames[k] in sent
    {
      assert c.fromNames[..m][k] == c.fromNames[k];
    }
    var m' := Found(c.fromNames, n, sent, 0);
    assert m' == m;
    RenamedSame(c.fromNames, c.toNames, sent, metrics, m);
  }

  lemma {:induction false} RenamedPrefix(fromNames: seq<string>, n: nat, metrics: Options, m: nat)
    requires m <= n <= |fromNames| && forall k :: 0 <= k < m ==> fromNames[k] in metrics
    ensures Renamed(fromNames, fromNames[..n], metrics, m) == Renamed(fromNames, fromNames, metrics, m)
  {
    if m > 0 {
      RenamedPrefix(fromNames, n, metrics, m - 1);
    }
  }

  // ------------------------------------------------------------ transitions

  function Init<T>(c: Config, outputs: seq<T>): State<T> {
    var first := Request(0, map[]);
    State(1, 1, [first], outputs, [Push(first, 0)], [])
  }

  function PushNext<T>(s: State<T>, options: Options): State<T> {
    var request := Request(s.nextTask, options);
    s.(outstanding := s.outstanding + 1, nextTask := s.nextTask + 1, pending := s.pending + [request],
       pushed := s.pushed + [Push(request, |s.handled|)])
  }

  /** Pushes tasks while a worker is idle and a task remains. */
  function Fill<T>(c: Config, s: State<T>, options: Options): State<T>
    decreases |c.labels| - s.nextTask
  {
    if s.outstanding < c.workers && s.nextTask < |c.labels| then Fill(c, PushNext(s, options), options) else s
  }

  /** Request `j` of the queue is answered by `r`. */
  predicate Answers<T>(c: Config, s: State<T>, j: nat, r: Response<T>) {
    && j < |s.pending| && r.index == s.pending[j].index
    && |s.outputs| == |c.labels| && |r.data| >= GroupSize(c.labels, r.index)
    && s.outstanding >= 1
  }

  function Accept<T>(c: Config, s: State<T>, j: nat, r: Response<T>): State<T>
    requires Answers(c, s, j, r)
  {
    s.(outstanding := s.outstanding - 1, pending := s.pending[..j] + s.pending[j + 1..],
       handled := s.handled + [r], outputs := Scatter(s.outputs, c.labels, r.index, r.data))
  }

  function Respond<T>(c: Config, s: State<T>, j: nat, r: Response<T>): State<T>
    requires ValidConfig(c) && Answers(c, s, j, r)
  {
    Fill(c, Accept(c, s, j, r), NewOptions(c.fromNames, c.toNames, r.metrics))
  }

  // ------------------------------------------------------ the master's callback

  class Master<T> {
    const config: Config
    var outstanding: nat
    var nextTask: nat
    var pending: seq<Request>
    const outputs: array<T>
    ghost var pushed: seq<Push>
    ghost var handled: seq<Response<T>>

    ghost function Abs(): State<T>
      reads this, outputs
    {
      State(outstanding, nextTask, pending, outputs[..], pushed, handled)
    }

    constructor (config: Config, outputs: array<T>)
      requires ValidConfig(config) && outputs.Length == |config.labels|
      ensures this.config == config && this.outputs == outputs && Abs() == Init(config, outputs[..])
    {
      this.config, this.outputs := config, outputs;
      outstanding, nextTask, pending := 1, 1, [Request(0, map[])];
      pushed, handled := [Push(Request(0, map[]), 0)], [];
    }

    /** The response callback; the queue has handed out request `j` and dropped it. */
    method OnResponse(j: nat, r: Response<T>)
      requires ValidConfig(config) && Answers(config, Abs(), j, r)
      modifies this, outputs
      ensures Abs() == Respond(config, old(Abs()), j, r)
    {
      outstanding := outstanding - 1;
      pending := pending[..j] + pending[j + 1..];
      handled := handled + [r];
      ScatterInto(outputs, config.labels, r.index, r.data);
      var newOptions, missing := RenameFound(config.fromNames, config.toNames, r.metrics);
      ghost var target := Fill(config, Abs(), newOptions);
      while outstanding < config.workers && nextTask < |config.labels|
        invariant Fill(config, Abs(), newOptions) == target
        decreases |config.labels| - nextTask
      {
        var request := Request(nextTask, newOptions);
        pending := pending + [request];
        pushed := pushed + [Push(request, |handled|)];
        outstanding := outstanding + 1;
        nextTask := nextTask + 1;
      }
    }
  }

  // ------------------------------------------------------- the invariant

  /** The counters agree with the queue and the history. */
  ghost predicate Counted<T>(c: Config, s: State<T>) {
    && s.outstanding == |s.pending|
    && s.nextTask == |s.pushed| == |s.handled| + s.outstanding
    && 1 <= s.nextTask <= |c.labels|
    && s.outstanding <= (if c.workers >= 1 then c.workers else 1)
  }

  /** The options of a push come from the response handled just before it. */
  ghost predicate Supplied<T>(c: Config, s: State<T>, p: Push)
    requires ValidConfig(c)
  {
    && 1 <= p.after <= |s.handled|
    && Translated(c.fromNames, c.toNames, s.handled[p.after - 1].metrics, p.request.options)
  }

  ghost predicate Recorded<T>(s: State<T>, q: Request) {
    q.index < |s.pushed| && s.pushed[q.index].request == q
  }

  /** Tasks were pushed in order, the first without options and each other one with
      options from the response just handled. */
  ghost predicate Logged<T>(c: Config, s: State<T>)
    requires ValidConfig(c)
  {
    && |s.pushed| >= 1 && s.pushed[0].request.options == map[]
    && (forall k :: 0 <= k < |s.pushed| ==> s.pushed[k].request.index == k)
    && (forall k :: 1 <= k < |s.pushed| ==> Supplied(c, s, s.pushed[k]))
    && (forall j :: 0 <= j < |s.pending| ==> Recorded(s, s.pending[j]))
  }

  ghost predicate Waiting<T>(s: State<T>, k: nat) {
    exists j :: 0 <= j < |s.pending| && s.pending[j].index == k
  }

  ghost predicate Answered<T>(s: State<T>, k: nat) {
    exists h :: 0 <= h < |s.handled| && s.handled[h].index == k
  }

  /** Every pushed task is either waiting or answered, once. */
  ghost predicate Accounted<T>(s: State<T>) {
    && (forall k: nat :: k < s.nextTask <==> Waiting(s, k) || Answered(s, k))
    && (forall k: nat :: !(Waiting(s, k) && Answered(s, k)))
    && (forall i, j :: 0 <= i < j < |s.pending| ==> s.pending[i].index != s.pending[j].index)
    && (forall g, h :: 0 <= g < h < |s.handled| ==> s.handled[g].index != s.handled[h].index)
  }

  /** Slot `i` holds what response `h` brought for it. */
  ghost predicate Delivered<T>(c: Config, s: State<T>, i: nat, h: nat)
    requires i < |c.labels| == |s.outputs| && h < |s.handled|
  {
    && s.handled[h].index == c.labels[i]
    && Rank(c.labels, i) < |s.handled[h].data|
    && s.outputs[i] == s.handled[h].data[Rank(c.labels, i)]
  }

  /** A slot holds its own group's result once that has come back, and is untouched
      until then. */
  ghost predicate Scattered<T>(c: Config, s: State<T>, initial: seq<T>) {
    && |s.outputs| == |initial| == |c.labels|
    && (forall i, h :: 0 <= i < |c.labels| && 0 <= h < |s.handled| && s.handled[h].index == c.labels[i] ==>
          Delivered(c, s, i, h))
    && (forall i :: 0 <= i < |c.labels| && (c.labels[i] < 0 || !Answered(s, c.labels[i])) ==>
          s.outputs[i] == initial[i])
  }

  /** With a worker to spare, no task is left behind; and once the first response has
      been handled, every worker is busy while tasks remain. */
  ghost predicate Busy<T>(c: Config, s: State<T>) {
    && (c.workers >= 1 && s.nextTask < |c.labels| ==> s.outstanding >= 1)
    && (|s.handled| >= 1 && s.nextTask < |c.labels| ==> s.outstanding >= c.workers)
  }

  ghost predicate Inv<T>(c: Config, s: State<T>, initial: seq<T>) {
    && ValidConfig(c) && Counted(c, s) && Logged(c, s) && Accounted(s) && Scattered(c, s, initial) && Busy(c, s)
  }

  lemma InitInv<T>(c: Config, outputs: seq<T>)
    requires ValidConfig(c) && |outputs| == |c.labels|
    ensures Inv(c, Init(c, outputs), outputs)
  {
    var s := Init(c, outputs);
    assert s.pending[0].index == 0;
    assert Waiting(s, 0);
  }

  lemma WaitingAfterPush<T>(s: State<T>, options: Options, k: nat)
    ensures Waiting(PushNext(s, options), k) <==> Waiting(s, k) || k == s.nextTask
    ensures Answered(PushNext(s, options), k) <==> Answered(s, k)
  {
    var t := PushNext(s, options);
    assert t.pending[|s.pending|].index == s.nextTask;
    if j :| 0 <= j < |s.pending| && s.pending[j].index == k {
      assert t.pending[j].index == k;
    }
  }

  lemma PushAccounted<T>(s: State<T>, options: Options)
    requires Accounted(s)
    ensures Accounted(PushNext(s, options))
  {
    var t := PushNext(s, options);
    forall k: nat
      ensures k < t.nextTask <==> Waiting(t, k) || Answered(t, k)
      ensures !(Waiting(t, k) && Answered(t, k))
    {
      WaitingAfterPush(s, options, k);
    }
    forall i | 0 <= i < |s.pending|
      ensures s.pending[i].index < s.nextTask
    {
      assert Waiting(s, s.pending[i].index);
    }
  }

  /** What holds while the callback fills the workers; `Busy` may not hold yet. */
  ghost predicate Filling<T>(c: Config, s: State<T>, initial: seq<T>, options: Options) {
    && ValidConfig(c) && Counted(c, s) && Logged(c, s) && Accounted(s) && Scattered(c, s, initial)
    && |s.handled| >= 1 && options == NewOptions(c.fromNames, c.toNames, s.handled[|s.handled| - 1].metrics)
  }

  lemma PushScattered<T>(c: Config, s: State<T>, initial: seq<T>, options: Options)
    requires Scattered(c, s, initial)
    ensures Scattered(c, PushNext(s, options), initial)
  {
    var t := PushNext(s, options);
    forall i, h | 0 <= i < |c.labels| && 0 <= h < |t.handled| && t.handled[h].index == c.labels[i]
      ensures Delivered(c, t, i, h)
    {
      assert Delivered(c, s, i, h);
    }
    forall i | 0 <= i < |c.labels| && (c.labels[i] < 0 || !Answered(t, c.labels[i]))
      ensures t.outputs[i] == initial[i]
    {
      if c.labels[i] >= 0 {
        WaitingAfterPush(s, options, c.labels[i]);
      }
    }
  }

  lemma PushLogged<T>(c: Config, s: State<T>, options: Options)
    requires ValidConfig(c) && Logged(c, s) && s.nextTask == |s.pushed| && |s.handled| >= 1
    requires options == NewOptions(c.fromNames, c.toNames, s.handled[|s.handled| - 1].metrics)
    ensures Logged(c, PushNext(s, options))
  {
    var t := PushNext(s, options);
    NewOptionsTranslated(c.fromNames, c.toNames, s.handled[|s.handled| - 1].metrics);
    forall k | 1 <= k < |t.pushed|
      ensures Supplied(c, t, t.pushed[k])
    {
      assert k < |s.pushed| ==> Supplied(c, s, s.pushed[k]);
    }
    forall j | 0 <= j < |t.pending|
      ensures Recorded(t, t.pending[j])
    {
      assert j < |s.pending| ==> Recorded(s, s.pending[j]);
    }
  }

  lemma PushFilling<T>(c: Config, s: State<T>, initial: seq<T>, options: Options)
    requires Filling(c, s, initial, options) && s.outstanding < c.workers && s.nextTask < |c.labels|
    ensures Filling(c, PushNext(s, options), initial, options)
  {
    PushAccounted(s, options);
    PushScattered(c, s, initial, options);
    PushLogged(c, s, options);
  }

  lemma {:induction false} FillInv<T>(c: Config, s: State<T>, initial: seq<T>, options: Options)
    requires Filling(c, s, initial, options)
    ensures Inv(c, Fill(c, s, options), initial)
    ensures Fill(c, s, options).handled == s.handled
    decreases |c.labels| - s.nextTask
  {
    if s.outstanding < c.workers && s.nextTask < |c.labels| {
      PushFilling(c, s, initial, options);
      FillInv(c, PushNext(s, options), initial, options);
    }
  }

  lemma AcceptWaiting<T>(c: Config, s: State<T>, j: nat, r: Response<T>, k: nat)
    requires Answers(c, s, j, r) && Accounted(s)
    ensures Waiting(Accept(c, s, j, r), k) <==> Waiting(s, k) && k != r.index
    ensures Answered(Accept(c, s, j, r), k) <==> Answered(s, k) || k == r.index
  {
    var t := Accept(c, s, j, r);
    if i :| 0 <= i < |s.pending| && s.pending[i].index == k {
      if i < j {
        assert t.pending[i].index == k;
      } else if i > j {
        assert t.pending[i - 1].index == k;
      }
    }
    if i :| 0 <= i < |t.pending| && t.pending[i].index == k {
      assert s.pending[if i < j then i else i + 1].index == k;
    }
    assert t.handled[|s.handled|].index == r.index;
    if h :| 0 <= h < |s.handled| && s.handled[h].index == k {
      assert t.handled[h].index == k;
    }
  }

  lemma AcceptAccounted<T>(c: Config, s: State<T>, j: nat, r: Response<T>)
    requires Answers(c, s, j, r) && Accounted(s)
    ensures Accounted(Accept(c, s, j, r)) && Waiting(s, r.index)
  {
    var t := Accept(c, s, j, r);
    assert Waiting(s, r.index);
    forall k: nat
      ensures k < t.nextTask <==> Waiting(t, k) || Answered(t, k)
      ensures !(Waiting(t, k) && Answered(t, k))
    {
      AcceptWaiting(c, s, j, r, k);
    }
    forall h | 0 <= h < |s.handled|
      ensures s.handled[h].index != r.index
    {
      assert Answered(s, s.handled[h].index);
    }
  }

  lemma AcceptScattered<T>(c: Config, s: State<T>, j: nat, r: Response<T>, initial: seq<T>)
    requires Answers(c, s, j, r) && Accounted(s) && Scattered(c, s, initial)
    ensures Scattered(c, Accept(c, s, j, r), initial)
  {
    var t := Accept(c, s, j, r);
    AcceptAccounted(c, s, j, r);
    forall i, h | 0 <= i < |c.labels| && 0 <= h < |t.handled| && t.handled[h].index == c.labels[i]
      ensures Delivered(c, t, i, h)
    {
      RankBelow(c.labels, i);
      if h < |s.handled| {
        assert Delivered(c, s, i, h);
        assert Answered(s, s.handled[h].index);
      }
    }
    forall i | 0 <= i < |c.labels| && (c.labels[i] < 0 || !Answered(t, c.labels[i]))
      ensures t.outputs[i] == initial[i]
    {
      if c.labels[i] >= 0 {
        AcceptWaiting(c, s, j, r, c.labels[i]);
      }
    }
  }

  lemma AcceptLogged<T>(c: Config, s: State<T>, j: nat, r: Response<T>)
    requires ValidConfig(c) && Answers(c, s, j, r) && Logged(c, s)
    ensures Logged(c, Accept(c, s, j, r))
  {
    var t := Accept(c, s, j, r);
    forall k | 1 <= k < |t.pushed|
      ensures Supplied(c, t, t.pushed[k])
    {
      assert Supplied(c, s, s.pushed[k]);
    }
    forall i | 0 <= i < |t.pending|
      ensures Recorded(t, t.pending[i])
    {
      assert t.pending[i] == s.pending[if i < j then i else i + 1];
    }
  }

  /** Every response keeps the invariant. */
  lemma RespondInv<T>(c: Config, s: State<T>, j: nat, r: Response<T>, initial: seq<T>)
    requires Inv(c, s, initial) && Answers(c, s, j, r)
    ensures Inv(c, Respond(c, s, j, r), initial)
    ensures Respond(c, s, j, r).handled == s.handled + [r]
  {
    var t := Accept(c, s, j, r);
    AcceptAccounted(c, s, j, r);
    AcceptScattered(c, s, j, r, initial);
    AcceptLogged(c, s, j, r);
    FillInv(c, t, initial, NewOptions(c.fromNames, c.toNames, r.metrics));
  }

  // ------------------------------------------------------------ whole runs

  ghost predicate Step<T(!new)>(c: Config, s: State<T>, t: State<T>)
    requires ValidConfig(c)
  {
    exists j: nat, r :: Answers(c, s, j, r) && t == Respond(c, s, j, r)
  }

  /** The states of a run, from the first push on. */
  ghost predicate IsRun<T(!new)>(c: Config, run: seq<State<T>>, initial: seq<T>) {
    && ValidConfig(c) && |initial| == |c.labels| && |run| >= 1 && run[0] == Init(c, initial)
    && forall i :: 0 <= i < |run| - 1 ==> Step(c, run[i], run[i + 1])
  }

  /** Every state of every run satisfies the invariant, and the i-th has handled
      exactly i responses. */
  lemma {:induction false} RunSafe<T(!new)>(c: Config, run: seq<State<T>>, initial: seq<T>, i: nat)
    requires IsRun(c, run, initial) && i < |run|
    ensures Inv(c, run[i], initial) && |run[i].handled| == i
  {
    if i == 0 {
      InitInv(c, initial);
    } else {
      RunSafe(c, run, initial, i - 1);
      assert Step(c, run[i - 1], run[i]);
      var j: nat, r :| Answers(c, run[i - 1], j, r) && run[i] == Respond(c, run[i - 1], j, r);
      RespondInv(c, run[i - 1], j, r, initial);
    }
  }

  /** No run handles more responses than there are outputs, and one that has no
      request left to answer has handled all of them exactly when there is a worker
      or a single output. */
  lemma RunEnds<T(!new)>(c: Config, run: seq<State<T>>, initial: seq<T>)
    requires IsRun(c, run, initial)
    ensures |run| - 1 <= |c.labels|
    ensures run[|run| - 1].pending == [] ==>
              (|run| - 1 == |c.labels| <==> c.workers >= 1 || |c.labels| == 1)
    ensures |run| - 1 < |c.labels| && c.workers >= 1 ==> run[|run| - 1].pending != []
  {
    var last := |run| - 1;
    RunSafe(c, run, initial, last);
    if c.workers == 0 {
      NoWorkers(c, run, initial, last);
    }
  }

  /** Without workers only the first task is ever pushed. */
  lemma {:induction false} NoWorkers<T(!new)>(c: Config, run: seq<State<T>>, initial: seq<T>, i: nat)
    requires IsRun(c, run, initial) && i < |run| && c.workers == 0
    ensures run[i].nextTask == 1
  {
    if i > 0 {
      NoWorkers(c, run, initial, i - 1);
      assert Step(c, run[i - 1], run[i]);
    }
  }

  /** When a run with a worker has nothing left to answer, an output holds its own
      group's result exactly if its label is the number of a task; the others keep
      what they held before. */
  lemma RunDelivers<T(!new)>(c: Config, run: seq<State<T>>, initial: seq<T>, i: nat)
    requires IsRun(c, run, initial) && c.workers >= 1 && run[|run| - 1].pending == []
    requires i < |c.labels|
    ensures var s := run[|run| - 1];
            && |s.outputs| == |c.labels|
            && (0 <= c.labels[i] < |c.labels| ==> exists h :: 0 <= h < |s.handled| && Delivered(c, s, i, h))
            && (!(0 <= c.labels[i] < |c.labels|) ==> s.outputs[i] == initial[i])
  {
    var s := run[|run| - 1];
    RunSafe(c, run, initial, |run| - 1);
    var g := c.labels[i];
    if g >= 0 {
      assert !Waiting(s, g);
    }
    if 0 <= g < |c.labels| {
      assert Answered(s, g);
      var h :| 0 <= h < |s.handled| && s.handled[h].index == g;
      assert Delivered(c, s, i, h);
    }
  }

  /** A single output labelled 7: the run completes, and the output is never written. */
  lemma StrayLabelUntouched<T(!new)>(x: T)
    ensures var c := Config([7], 1, [], []);
            exists run: seq<State<T>> :: IsRun(c, run, [x]) && |run| == 2 && run[1].pending == [] && run[1].outputs == [x]
  {
    var c := Config([7], 1, [], []);
    var run := OneResponse(c, [x]);
    RunDelivers(c, run, [x], 0);
    assert run[1].outputs == [x];
  }

  /** Two outputs and no worker: the run ends with the second task never pushed. */
  lemma NoWorkerStalls<T(!new)>(x: T)
    ensures var c := Config([0, 1], 0, [], []);
            exists run: seq<State<T>> :: IsRun(c, run, [x, x]) && |run| == 2 && run[1].pending == [] && |run[1].handled| == 1
  {
    var c := Config([0, 1], 0, [], []);
    var run := OneResponse(c, [x, x]);
  }

  /** The run in which the first task is answered. */
  lemma OneResponse<T(!new)>(c: Config, initial: seq<T>) returns (run: seq<State<T>>)
    requires ValidConfig(c) && |initial| == |c.labels| && (c.workers == 0 || |c.labels| == 1)
    ensures IsRun(c, run, initial) && |run| == 2 && run[1].pending == [] && |run[1].handled| == 1
  {
    var s := Init(c, initial);
    var r := Response(0, map[], Gather(initial, 0, c.labels));
    GatherAt(initial, 0, c.labels);
    assert Answers(c, s, 0, r);
    run := [s, Respond(c, s, 0, r)];
    assert Step(c, run[0], run[1]);
  }
}
