/** Options as JSON and back. */
module OptionsJson {
  import opened Layout
  import opened Wrappers
  import opened JsonTree

  // option types, by number
  const UINT32 := 0
  const INT32 := 1
  const FLOAT := 2
  const DOUBLE := 3
  const CHARPTR := 4
  const USERPTR := 5
  const UNSET := 6
  const CHARPTR_ARRAY := 7
  const DATA := 8
  const UINT8 := 9
  const INT8 := 10
  const UINT16 := 11
  const INT16 := 12
  const UINT64 := 13
  const INT64 := 14
  const BOOL := 15
  const DTYPE := 16
  const THREADSAFETY := 17

  const DOUBLE_DTYPE := 0

  /** A dataset has a shape and a type, and a buffer unless it was created empty. */
  datatype Dataset = Dataset(dims: Shape, dtype: nat, values: Option<seq<real>>)

  /** A dataset without axes has no elements. */
  function NumElements(dims: Shape): nat {
    if dims == [] then 0 else Prod(dims)
  }

  /** The elements; without any, it does not matter whether there is a buffer. */
  function Held(d: Dataset): Option<seq<real>> {
    if NumElements(d.dims) == 0 then Some([]) else d.values
  }

  /** An option: a type without a value, or a value. */
  datatype Opt =
    | NoValue(kind: nat)
    | IntegerOpt(width: nat, n: int)
    | FloatOpt(f: real)
    | DoubleOpt(d: real)
    | BoolOpt(b: bool)
    | StringOpt(s: string)
    | StringsOpt(ss: seq<string>)
    | DtypeOpt(dtype: nat)
    | ThreadSafetyOpt(level: nat)
    | DataOpt(data: Dataset)
    | UserPtrOpt

  predicate IntegerType(t: nat) {
    t in {UINT32, INT32, UINT8, INT8, UINT16, INT16, UINT64, INT64}
  }

  /** The options the library can represent. */
  predicate Representable(o: Opt) {
    && (o.NoValue? ==> o.kind <= THREADSAFETY)
    && (o.IntegerOpt? ==> IntegerType(o.width))
    && (o.DataOpt? && o.data.values.Some? ==> |o.data.values.value| == NumElements(o.data.dims))
  }

  /** Equality of options: datasets agree in shape, type and elements. */
  predicate Same(o: Opt, p: Opt) {
    if o.DataOpt? && p.DataOpt? then
      o.data.dims == p.data.dims && o.data.dtype == p.data.dtype && Held(o.data) == Held(p.data)
    else o == p
  }

  function TypeOf(o: Opt): nat {
    match o
    case NoValue(t) => t
    case IntegerOpt(w, _) => w
    case FloatOpt(_) => FLOAT
    case DoubleOpt(_) => DOUBLE
    case BoolOpt(_) => BOOL
    case StringOpt(_) => CHARPTR
    case StringsOpt(_) => CHARPTR_ARRAY
    case DtypeOpt(_) => DTYPE
    case ThreadSafetyOpt(_) => THREADSAFETY
    case DataOpt(_) => DATA
    case UserPtrOpt => USERPTR
  }

  // ------------------------------------------------------------- to JSON

  function Numbers(xs: seq<real>): (js: seq<Json>)
    ensures |js| == |xs| && forall i :: 0 <= i < |xs| ==> js[i] == Number(xs[i])
  {
    seq(|xs|, i requires 0 <= i < |xs| => Number(xs[i]))
  }

  function Texts(ss: seq<string>): (js: seq<Json>)
    ensures |js| == |ss| && forall i :: 0 <= i < |ss| ==> js[i] == Text(ss[i])
  {
    seq(|ss|, i requires 0 <= i < |ss| => Text(ss[i]))
  }

  function Reals(ns: seq<nat>): (rs: seq<real>)
    ensures |rs| == |ns| && forall i :: 0 <= i < |ns| ==> rs[i] == ns[i] as real
  {
    seq(|ns|, i requires 0 <= i < |ns| => ns[i] as real)
  }

  /** The elements after the cast to double every dataset goes through. */
  function Rounded(values: seq<real>, rounding: real -> real): (r: seq<real>)
    ensures |r| == |values| && forall i :: 0 <= i < |values| ==> r[i] == rounding(values[i])
  {
    seq(|values|, i requires 0 <= i < |values| => rounding(values[i]))
  }

  /** `None` is the cast of elements that are not there. */
  function DataToJson(d: Dataset, rounding: real -> real): Option<Json> {
    match Held(d)
    case Some(values) =>
      Some(Object(map["dims" := Array(Numbers(Reals(d.dims))), "dtype" := Number(d.dtype as real),
                      "values" := Array(Numbers(Rounded(values, rounding)))]))
    case None => None
  }

  function Wrap(kind: nat, value: Json): Json {
    Object(map["type" := Number(kind as real), "value" := value])
  }

  /** `None` is the exception for pointers, or a missing buffer. */
  function ToJson(o: Opt, rounding: real -> real): Option<Json> {
    match o
    case NoValue(t) => Some(Wrap(t, Null))
    case DataOpt(d) => (match DataToJson(d, rounding) case Some(j) => Some(Wrap(DATA, j)) case None => None)
    case IntegerOpt(w, n) => Some(Wrap(w, Number(n as real)))
    case FloatOpt(f) => Some(Wrap(FLOAT, Number(f)))
    case BoolOpt(b) => Some(Boolean(b))
    case DoubleOpt(d) => Some(Number(d))
    case StringOpt(s) => Some(Text(s))
    case StringsOpt(ss) => Some(Array(Texts(ss)))
    case DtypeOpt(d) => Some(Wrap(DTYPE, Number(d as real)))
    case ThreadSafetyOpt(l) => Some(Wrap(THREADSAFETY, Number(l as real)))
    case UserPtrOpt => None
  }

  // ----------------------------------------------------------- from JSON

  /** The conversion of a number to an integer truncates toward zero. */
  function Truncate(r: real): int {
    if r >= 0.0 then r.Floor else -(-r).Floor
  }

  function AsNat(j: Json): Option<nat> {
    if j.Number? && Truncate(j.r) >= 0 then Some(Truncate(j.r)) else None
  }

  function AsNats(js: seq<Json>): Option<seq<nat>> {
    if js == [] then Some([])
    else match (AsNat(js[0]), AsNats(js[1..]))
         case (Some(n), Some(r)) => Some([n] + r)
         case _ => None
  }

  function AsReals(js: seq<Json>): Option<seq<real>> {
    if js == [] then Some([])
    else match AsReals(js[1..])
         case Some(r) => if js[0].Number? then Some([js[0].r] + r) else None
         case None => None
  }

  function AsTexts(js: seq<Json>): Option<seq<string>> {
    if js == [] then Some([])
    else match AsTexts(js[1..])
         case Some(r) => if js[0].Text? then Some([js[0].s] + r) else None
         case None => None
  }

  /** As many of the values as the shape has room for; `None` if they run out. */
  function Trimmed(dims: Shape, dtype: nat, values: seq<real>): Option<Dataset> {
    if NumElements(dims) <= |values| then Some(Dataset(dims, dtype, Some(values[..NumElements(dims)]))) else None
  }

  function DataFromJson(j: Json): Option<Dataset> {
    if j.Object? && "values" in j.fields && "dims" in j.fields && "dtype" in j.fields
       && j.fields["values"].Array? && j.fields["dims"].Array?
    then match (AsReals(j.fields["values"].items), AsNats(j.fields["dims"].items), AsNat(j.fields["dtype"]))
         case (Some(v), Some(d), Some(t)) => Trimmed(d, t, v)
         case _ => None
    else None
  }

  /** A wrapped value of a known type. */
  function FromWrapped(t: nat, v: Json): Option<Opt> {
    if IntegerType(t) then (if v.Number? then Some(IntegerOpt(t, Truncate(v.r))) else None)
    else if t == DATA then (match DataFromJson(v) case Some(d) => Some(DataOpt(d)) case None => None)
    else if t == BOOL then (if v.Boolean? then Some(BoolOpt(v.b)) else None)
    else if t == FLOAT then (if v.Number? then Some(FloatOpt(v.r)) else None)
    else if t == DOUBLE then (if v.Number? then Some(DoubleOpt(v.r)) else None)
    else if t == DTYPE then (match AsNat(v) case Some(n) => Some(DtypeOpt(n)) case None => None)
    else if t == THREADSAFETY then (match AsNat(v) case Some(n) => Some(ThreadSafetyOpt(n)) case None => None)
    else if t == CHARPTR then (if v.Text? then Some(StringOpt(v.s)) else None)
    else if t == CHARPTR_ARRAY then (if v.Text? then Some(StringsOpt([v.s])) else None)
    else if t == UNSET then Some(NoValue(UNSET))
    else None
  }

  /** A wrapped null: two types are not in the list of those that may lack a value. */
  function FromNull(t: nat): Option<Opt> {
    if t < DTYPE then Some(NoValue(t)) else None
  }

  function FromArray(j: Json): Option<Opt>
    requires j.Array?
  {
    match ArrayType(j)
    case Text(_) => (match AsTexts(j.items) case Some(ss) => Some(StringsOpt(ss)) case None => None)
    case Number(_) =>
      (match Flattened(j, Flatten([], []), 0)
       case Some(f) => (match Trimmed(f.dims, DOUBLE_DTYPE, f.values) case Some(d) => Some(DataOpt(d)) case None => None)
       case None => None)
    case Array(_) => Some(NoValue(UNSET))
    case _ => None
  }

  /** `None` is an exception. */
  function FromJson(j: Json): Option<Opt> {
    match j
    case Text(s) => Some(StringOpt(s))
    case Object(fields) =>
      if "type" in fields && "value" in fields && AsNat(fields["type"]).Some? then
        var t := AsNat(fields["type"]).value;
        if fields["value"] != Null then FromWrapped(t, fields["value"]) else FromNull(t)
      else None
    case Number(r) => Some(DoubleOpt(r))
    case Array(_) => FromArray(j)
    case Null => Some(NoValue(UNSET))
    case Boolean(b) => Some(BoolOpt(b))
  }

  // ---------------------------------------------------------- round trips

  lemma {:induction false} TextsBack(ss: seq<string>)
    ensures AsTexts(Texts(ss)) == Some(ss)
  {
    if ss != [] {
      TextsBack(ss[1..]);
      assert Texts(ss)[1..] == Texts(ss[1..]);
      assert [ss[0]] + ss[1..] == ss;
    }
  }

  lemma {:induction false} RealsBack(xs: seq<real>)
    ensures AsReals(Numbers(xs)) == Some(xs)
  {
    if xs != [] {
      RealsBack(xs[1..]);
      assert Numbers(xs)[1..] == Numbers(xs[1..]);
      assert [xs[0]] + xs[1..] == xs;
    }
  }

  lemma {:induction false} NatsBack(ns: seq<nat>)
    ensures AsNats(Numbers(Reals(ns))) == Some(ns)
  {
    if ns != [] {
      NatsBack(ns[1..]);
      assert Numbers(Reals(ns))[1..] == Numbers(Reals(ns[1..]));
      assert [ns[0]] + ns[1..] == ns;
    }
  }

  lemma DataBack(d: Dataset, rounding: real -> real)
    requires Held(d).Some? && |Held(d).value| == NumElements(d.dims)
    ensures var j := DataToJson(d, rounding);
            j.Some? && DataFromJson(j.value) == Some(d.(values := Some(Rounded(Held(d).value, rounding))))
  {
    var back := Rounded(Held(d).value, rounding);
    RealsBack(back);
    NatsBack(d.dims);
    assert back[..NumElements(d.dims)] == back;
  }

  /** Every element is exact as a double. */
  ghost predicate Exact(values: seq<real>, rounding: real -> real) {
    forall i :: 0 <= i < |values| ==> rounding(values[i]) == values[i]
  }

  /** Options that survive the trip. */
  ghost predicate Portable(o: Opt, rounding: real -> real) {
    match o
    case UserPtrOpt => false
    case StringsOpt(ss) => ss != []
    case NoValue(t) => t != DTYPE && t != THREADSAFETY
    case DataOpt(d) => Held(d).Some? && Exact(Held(d).value, rounding)
    case _ => true
  }

  /** Writing and reading back gives the same option. */
  predicate Returns(o: Opt, rounding: real -> real) {
    var j := ToJson(o, rounding);
    j.Some? && FromJson(j.value).Some? && Same(FromJson(j.value).value, o)
  }

  lemma NatTruncates(n: nat)
    ensures Truncate(n as real) == n
  {
  }

  lemma WrappedBack(t: nat, v: Json)
    requires v != Null
    ensures FromJson(Wrap(t, v)) == FromWrapped(t, v)
  {
    NatTruncates(t);
  }

  lemma DataReturns(d: Dataset, rounding: real -> real)
    requires Representable(DataOpt(d))
    ensures Returns(DataOpt(d), rounding) <==> Portable(DataOpt(d), rounding)
  {
    if Held(d).Some? {
      DataBack(d, rounding);
      WrappedBack(DATA, DataToJson(d, rounding).value);
      var values := Held(d).value;
      var back := d.(values := Some(Rounded(values, rounding)));
      assert Held(back).value == values <==> Exact(values, rounding);
      assert FromJson(ToJson(DataOpt(d), rounding).value) == Some(DataOpt(back));
    }
  }

  lemma StringsReturn(ss: seq<string>, rounding: real -> real)
    ensures Returns(StringsOpt(ss), rounding) <==> ss != []
  {
    TextsBack(ss);
    if ss != [] {
      assert ArrayType(Array(Texts(ss))) == Texts(ss)[0];
    }
  }

  lemma ScalarReturns(o: Opt, rounding: real -> real)
    requires Representable(o) && !o.DataOpt? && !o.StringsOpt?
    ensures Returns(o, rounding) <==> Portable(o, rounding)
  {
  }

  /** Writing an option and reading it back gives the same option exactly for the
      portable ones: no pointer, no empty string list, no type the reader does not
      know without a value, no elements without a buffer, and only elements that are
      exact as doubles. */
  lemma OptionRoundTripExact(o: Opt, rounding: real -> real)
    requires Representable(o)
    ensures Returns(o, rounding) <==> Portable(o, rounding)
  {
    match o {
      case DataOpt(d) => DataReturns(d, rounding);
      case StringsOpt(ss) => StringsReturn(ss, rounding);
      case _ => ScalarReturns(o, rounding);
    }
  }

  /** What comes back of a portable option: the option itself, of data the same shape, type
      and elements in a buffer. */
  lemma PortableReturns(o: Opt, rounding: real -> real)
    requires Representable(o) && Portable(o, rounding)
    ensures var j := ToJson(o, rounding);
            && j.Some?
            && (o.DataOpt? ==> Held(o.data).Some?
                               && FromJson(j.value) == Some(DataOpt(Dataset(o.data.dims, o.data.dtype, Held(o.data)))))
            && (!o.DataOpt? ==> FromJson(j.value) == Some(o))
  {
    match o {
      case DataOpt(d) =>
        DataBack(d, rounding);
        WrappedBack(DATA, DataToJson(d, rounding).value);
        assert Rounded(Held(d).value, rounding) == Held(d).value;
      case StringsOpt(ss) => StringsReturn(ss, rounding);
      case _ => ScalarReturns(o, rounding);
    }
  }

  /** A dataset created with a shape but no buffer does not survive. */
  lemma NoBufferLost(rounding: real -> real)
    ensures var o := DataOpt(Dataset([50, 50], 1, None));
            Representable(o) && ToJson(o, rounding) == None && !Portable(o, rounding)
  {
    assert [50, 50][1..] == [50] && [50][1..] == [];
    assert Prod([50, 50]) == 50 * (50 * 1);
  }

  lemma {:induction false} FirstIsNumber(j: Json, shape: Shape)
    requires Rectangular(j, shape)
    ensures ArrayType(j).Number?
    decreases |shape|
  {
    if shape != [] {
      FirstIsNumber(j.items[0], shape[1..]);
    }
  }

  /** A rectangular nested array is read as the dataset of its shape, its numbers in
      row-major order. */
  lemma ArrayBecomesData(j: Json, shape: Shape)
    requires shape != [] && Rectangular(j, shape)
    ensures |Leaves(j, shape)| == Prod(shape)
    ensures FromJson(j) == Some(DataOpt(Dataset(shape, DOUBLE_DTYPE, Some(Leaves(j, shape)))))
  {
    FirstIsNumber(j, shape);
    FlattenedIs(j, shape, Flatten([], []), 0);
    LeavesCount(j, shape);
    var values, r := Leaves(j, shape), Flattened(j, Flatten([], []), 0);
    assert r.value.dims == shape && r.value.values == values;
    assert values[..Prod(shape)] == values;
  }

  // ------------------------------------------------------ the written form

  /** Options whose JSON value tells their type are written bare. */
  predicate Bare(o: Opt) {
    o.BoolOpt? || o.DoubleOpt? || o.StringOpt? || o.StringsOpt?
  }

  /** The written form: a bare scalar or list of strings, or else an object of exactly
      the type number and the value, which is null when there is none. */
  lemma WrittenForm(o: Opt, rounding: real -> real)
    requires ToJson(o, rounding).Some?
    ensures var j := ToJson(o, rounding).value;
            && (o.BoolOpt? ==> j == Boolean(o.b))
            && (o.DoubleOpt? ==> j == Number(o.d))
            && (o.StringOpt? ==> j == Text(o.s))
            && (o.StringsOpt? ==> j.Array? && |j.items| == |o.ss|
                                  && forall i :: 0 <= i < |o.ss| ==> j.items[i] == Text(o.ss[i]))
            && (!Bare(o) ==> j.Object? && j.fields.Keys == {"type", "value"}
                             && j.fields["type"] == Number(TypeOf(o) as real)
                             && (j.fields["value"] == Null <==> o.NoValue?))
            && (o.IntegerOpt? ==> j.fields["value"] == Number(o.n as real))
            && (o.FloatOpt? ==> j.fields["value"] == Number(o.f))
            && (o.DtypeOpt? ==> j.fields["value"] == Number(o.dtype as real))
            && (o.ThreadSafetyOpt? ==> j.fields["value"] == Number(o.level as real))
  {
  }

  /** Data is written as its shape, its type and its elements cast to double. */
  lemma WrittenData(d: Dataset, rounding: real -> real)
    requires Held(d).Some?
    ensures var j := ToJson(DataOpt(d), rounding);
            && j.Some? && j.value.Object? && "value" in j.value.fields && j.value.fields["value"].Object?
            && var f := j.value.fields["value"].fields;
            && f.Keys == {"dims", "dtype", "values"} && f["dtype"] == Number(d.dtype as real)
            && f["dims"].Array? && |f["dims"].items| == |d.dims|
            && (forall i :: 0 <= i < |d.dims| ==> f["dims"].items[i] == Number(d.dims[i] as real))
            && f["values"].Array? && |f["values"].items| == |Held(d).value|
            && (forall i :: 0 <= i < |Held(d).value| ==> f["values"].items[i] == Number(rounding(Held(d).value[i])))
  {
  }

  /** What is written bare is read the same when it comes wrapped with its type. */
  lemma WrappedScalars(b: bool, r: real, s: string)
    ensures FromJson(Wrap(BOOL, Boolean(b))) == FromJson(Boolean(b)) == Some(BoolOpt(b))
    ensures FromJson(Wrap(DOUBLE, Number(r))) == FromJson(Number(r)) == Some(DoubleOpt(r))
    ensures FromJson(Wrap(CHARPTR, Text(s))) == FromJson(Text(s)) == Some(StringOpt(s))
  {
    WrappedBack(BOOL, Boolean(b));
    WrappedBack(DOUBLE, Number(r));
    WrappedBack(CHARPTR, Text(s));
  }

  /** A wrapped string list is a single string, the unset type has no value, and a pointer
      or an unknown type fails. */
  lemma WrappedRest(s: string, t: nat, v: Json)
    requires v != Null
    ensures FromJson(Wrap(CHARPTR_ARRAY, Text(s))) == Some(StringsOpt([s]))
    ensures FromJson(Wrap(UNSET, v)) == Some(NoValue(UNSET))
    ensures t == USERPTR || t > THREADSAFETY ==> FromJson(Wrap(t, v)) == None
  {
    WrappedBack(CHARPTR_ARRAY, Text(s));
    WrappedBack(UNSET, v);
    WrappedBack(t, v);
  }

  /** Null and an empty array are read as an option without a value or a type; an array is
      read by its first scalar, and one of another kind fails. */
  lemma BareForms(items: seq<Json>)
    ensures FromJson(Null) == Some(NoValue(UNSET)) && FromJson(Array([])) == Some(NoValue(UNSET))
    ensures items != [] && (items[0].Boolean? || items[0].Object? || items[0].Null?) ==> FromJson(Array(items)) == None
    ensures FromJson(Object(map[])) == None
  {
    if items != [] && !items[0].Array? {
      assert ArrayType(Array(items)) == items[0];
    }
  }

  /** Reading data takes as many numbers as the shape asks for and ignores the rest; with
      fewer it fails. */
  lemma DataRead(dims: Shape, dtype: nat, values: seq<real>)
    ensures var r := DataFromJson(Object(map["dims" := Array(Numbers(Reals(dims))), "dtype" := Number(dtype as real),
                                             "values" := Array(Numbers(values))]));
            && (r.None? <==> |values| < NumElements(dims))
            && (r.Some? ==> r.value.dims == dims && r.value.dtype == dtype
                            && r.value.values == Some(values[..NumElements(dims)]))
  {
    RealsBack(values);
    NatsBack(dims);
    NatTruncates(dtype);
  }

  /** Data without elements survives, with or without a buffer. */
  lemma NoElementsReturn(d: Dataset, rounding: real -> real)
    requires Representable(DataOpt(d)) && (d.dims == [] || exists i :: 0 <= i < |d.dims| && d.dims[i] == 0)
    ensures Returns(DataOpt(d), rounding)
  {
    ProdPositive(d.dims);
    OptionRoundTripExact(DataOpt(d), rounding);
  }

  /** A wrapped integer loses its fraction, toward zero. */
  lemma WrappedInteger(t: nat, r: real)
    requires IntegerType(t)
    ensures var o := FromJson(Wrap(t, Number(r)));
            && o.Some? && o.value.IntegerOpt? && o.value.width == t
            && (r >= 0.0 ==> o.value.n as real <= r < (o.value.n + 1) as real)
            && (r < 0.0 ==> (o.value.n - 1) as real < r <= o.value.n as real)
  {
    WrappedBack(t, Number(r));
  }

  // ------------------------------------------------------------ whole maps

  predicate Kept(m: map<string, Opt>, k: string) {
    k in m && TypeOf(m[k]) != USERPTR
  }

  /** Pointers are skipped; an object without members is never created.  `None` if
      any member cannot be written. */
  function MapToJson(m: map<string, Opt>, rounding: real -> real): Option<Json> {
    if exists k :: k in m && Kept(m, k) && ToJson(m[k], rounding).None? then None
    else
      var fields := map k | k in m && Kept(m, k) :: ToJson(m[k], rounding).value;
      Some(if fields == map[] then Null else Object(fields))
  }

  /** `None` if any member throws. */
  function MapFromJson(j: Json): Option<map<string, Opt>> {
    var fields := if j.Object? then j.fields else map[];
    if forall k :: k in fields ==> FromJson(fields[k]).Some? then
      Some(map k | k in fields :: FromJson(fields[k]).value)
    else None
  }

  /** Writing and reading back gives the same map without its pointer entries. */
  ghost predicate MapReturns(m: map<string, Opt>, rounding: real -> real) {
    var j := MapToJson(m, rounding);
    && j.Some? && MapFromJson(j.value).Some?
    && var back := MapFromJson(j.value).value;
    && (forall k :: k in back <==> k in m && TypeOf(m[k]) != USERPTR)
    && (forall k :: k in back ==> Same(back[k], m[k]))
  }

  lemma FieldsOf(m: map<string, Opt>, rounding: real -> real)
    requires MapToJson(m, rounding).Some?
    ensures var j := MapToJson(m, rounding).value;
            var fields := if j.Object? then j.fields else map[];
            && (forall k :: k in fields <==> Kept(m, k))
            && (forall k :: k in fields ==> ToJson(m[k], rounding) == Some(fields[k]))
  {
    var fields := map k | k in m && Kept(m, k) :: ToJson(m[k], rounding).value;
    forall k | Kept(m, k)
      ensures k in fields
    {
    }
  }

  /** A map with nothing to write becomes null, any other an object of what is written. */
  lemma MapForm(m: map<string, Opt>, rounding: real -> real)
    requires MapToJson(m, rounding).Some?
    ensures var j := MapToJson(m, rounding).value;
            && (j == Null <==> forall k :: k in m ==> TypeOf(m[k]) == USERPTR)
            && (j != Null ==> j.Object? && forall k :: k in j.fields <==> k in m && TypeOf(m[k]) != USERPTR)
  {
    FieldsOf(m, rounding);
    var fields := map k | k in m && Kept(m, k) :: ToJson(m[k], rounding).value;
    if k :| k in m && Kept(m, k) {
      assert k in fields;
    }
    if fields != map[] {
      var k :| k in fields;
    }
  }

  /** Writing a whole map and reading it back loses the pointer entries and nothing
      else, exactly when the other entries are portable. */
  lemma MapRoundTrip(m: map<string, Opt>, rounding: real -> real)
    requires forall k :: k in m ==> Representable(m[k])
    ensures MapReturns(m, rounding) <==> forall k :: k in m && TypeOf(m[k]) != USERPTR ==> Portable(m[k], rounding)
  {
    forall k | Kept(m, k)
      ensures Returns(m[k], rounding) <==> Portable(m[k], rounding)
    {
      OptionRoundTripExact(m[k], rounding);
    }
    if MapToJson(m, rounding).Some? {
      FieldsOf(m, rounding);
    }
  }

  /** The other four ways of losing an option: it cannot be written, it comes back as
      something else, it cannot be read, its element is not exact. */
  lemma LostOptions(rounding: real -> real, v: real)
    ensures ToJson(UserPtrOpt, rounding) == None
    ensures FromJson(ToJson(StringsOpt([]), rounding).value) == Some(NoValue(UNSET))
    ensures FromJson(ToJson(NoValue(DTYPE), rounding).value) == None
    ensures rounding(v) != v ==> !Returns(DataOpt(Dataset([1], DOUBLE_DTYPE, Some([v]))), rounding)
  {
    assert [1][1..] == [] && Prod([1]) == 1 * 1;
    var d := Dataset([1], DOUBLE_DTYPE, Some([v]));
    OptionRoundTripExact(DataOpt(d), rounding);
    assert Held(d).value[0] == v;
  }
}
