/** The stateless backend's batcher: group compatible requests, stack them along
    the first dimension, run once, and split the output again.

    Graph execution is an uninterpreted deterministic function (`Model.run`) and
    no request is cancelled, so `infer` is a function of its inputs. */
module Batching {
  import opened Common

  datatype Dtype = U8 | Utf8 | F16 | I32 | F32 | I64 | F64 | Unsupported(code: nat) {
    /** The width that the name tells, and none for other codes. */
    function Bits(): nat {
      match this
      case U8 => 8
      case Utf8 => 8
      case F16 => 16
      case I32 => 32
      case F32 => 32
      case I64 => 64
      case F64 => 64
      case Unsupported(_) => 0
    }

    function Bytes(): Result<nat, Error> {
      match this
      case U8 | Utf8 => Ok(1)
      case F16 => Ok(2)
      case I32 | F32 => Ok(4)
      case I64 | F64 => Ok(8)
      case Unsupported(_) => Err(InvalidArgument)
    }
  }

  datatype Error = NoPrimaryInput(index: nat) | InvalidArgument | Backend | MissingResult(missing: int)

  lemma BytesHoldBits(dtype: Dtype)
    ensures if dtype.Unsupported? then dtype.Bytes() == Err(InvalidArgument)
            else dtype.Bytes().Ok? && dtype.Bytes().value * 8 == dtype.Bits()
  {
  }

  /** A tensor as the graph sees it: positional, without a name. */
  datatype Value = Value(dtype: Dtype, shape: seq<int>, data: seq<byte>)

  datatype Tensor = Tensor(name: string, value: Value)

  datatype Model = Model(
    inputNames: seq<string>,
    outputNames: seq<string>,
    run: seq<Value> -> Option<Value>)

  // ----- one request -------------------------------------------------------

  function FindInput(inputs: seq<Tensor>, name: string): (r: Result<Value, Error>)
    ensures r.Err? ==> r.error == InvalidArgument
  {
    if inputs == [] then Err(InvalidArgument)
    else if inputs[0].name == name then Ok(inputs[0].value)
    else FindInput(inputs[1..], name)
  }

  /** Secondary inputs are matched by the model's declared names. */
  function BindByName(names: seq<string>, inputs: seq<Tensor>): (r: Result<seq<Value>, Error>)
    ensures r.Err? ==> r.error == InvalidArgument
  {
    if names == [] then Ok([])
    else
      var value :- FindInput(inputs, names[0]);
      var rest :- BindByName(names[1..], inputs);
      Ok([value] + rest)
  }

  /** One request alone. No error of its own is a missing batch result. */
  function Infer(m: Model, inputs: seq<Tensor>): (r: Result<Tensor, Error>)
    ensures r.Err? ==> r.error == InvalidArgument || r.error == Backend
  {
    if inputs == [] then Err(InvalidArgument)
    else if |inputs| != |m.inputNames| then Err(InvalidArgument)
    else if m.outputNames == [] then Err(Backend)
    else
      var rest :- BindByName(m.inputNames[1..], inputs[1..]);
      match m.run([inputs[0].value] + rest)
      case Some(output) => Ok(Tensor(m.outputNames[0], output))
      case None => Err(Backend)
  }

  // ----- what a request is run on --------------------------------------------

  /** The first tensor of that name is at `k`. */
  predicate FirstNamed(inputs: seq<Tensor>, name: string, k: nat) {
    && k < |inputs| && inputs[k].name == name
    && forall j | 0 <= j < k :: inputs[j].name != name
  }

  predicate Occurs(inputs: seq<Tensor>, name: string) {
    exists k | 0 <= k < |inputs| :: inputs[k].name == name
  }

  lemma {:induction false} FindsFirst(inputs: seq<Tensor>, name: string)
    ensures FindInput(inputs, name).Ok? <==> Occurs(inputs, name)
    ensures forall k: nat | FirstNamed(inputs, name, k) :: FindInput(inputs, name) == Ok(inputs[k].value)
    ensures Occurs(inputs, name) ==> exists k: nat :: FirstNamed(inputs, name, k)
  {
    if inputs != [] {
      var rest := inputs[1..];
      assert forall k | 1 <= k < |inputs| :: inputs[k] == rest[k - 1];
      FindsFirst(rest, name);
      if inputs[0].name == name {
        assert FirstNamed(inputs, name, 0);
      } else {
        forall k: nat | FirstNamed(inputs, name, k) ensures FindInput(inputs, name) == Ok(inputs[k].value) {
          assert FirstNamed(rest, name, k - 1);
        }
        if Occurs(inputs, name) {
          var i :| 0 <= i < |inputs| && inputs[i].name == name;
          assert rest[i - 1].name == name;
          var k: nat :| FirstNamed(rest, name, k);
          assert FirstNamed(inputs, name, k + 1);
        }
      }
    }
  }

  /** `values[i]` is the first tensor named `names[i]`. */
  ghost predicate Bound(names: seq<string>, inputs: seq<Tensor>, values: seq<Value>) {
    && |values| == |names|
    && forall i | 0 <= i < |names| :: exists k: nat :: FirstNamed(inputs, names[i], k) && values[i] == inputs[k].value
  }

  /** Binding succeeds exactly when every name occurs, and gives each declared name
      its own tensor, in the order of the declaration. */
  lemma {:induction false} BindsByName(names: seq<string>, inputs: seq<Tensor>)
    ensures BindByName(names, inputs).Ok? <==> forall i | 0 <= i < |names| :: Occurs(inputs, names[i])
    ensures BindByName(names, inputs).Ok? ==> Bound(names, inputs, BindByName(names, inputs).value)
  {
    hide FindInput, Occurs;
    if names != [] {
      var rest := names[1..];
      assert forall i | 1 <= i < |names| :: names[i] == rest[i - 1];
      assert forall i | 0 <= i < |rest| :: rest[i] == names[i + 1];
      FindsFirst(inputs, names[0]);
      BindsByName(rest, inputs);
      if BindByName(names, inputs).Ok? {
        var values := BindByName(names, inputs).value;
        forall i | 0 <= i < |names|
          ensures exists k: nat :: FirstNamed(inputs, names[i], k) && values[i] == inputs[k].value
        {
          if i > 0 {
            assert values[i] == BindByName(rest, inputs).value[i - 1];
          }
        }
      }
    }
  }

  /** What the graph is run on: the first tensor, whatever its name, and then the
      secondary tensors in the order of the declared names. */
  ghost predicate RunsOn(m: Model, inputs: seq<Tensor>, args: seq<Value>) {
    && inputs != [] && |args| == |inputs| == |m.inputNames|
    && args[0] == inputs[0].value
    && Bound(m.inputNames[1..], inputs[1..], args[1..])
  }

  /** A request is answered exactly when it has as many inputs as the model, each
      secondary one declared, and the graph runs on them. */
  lemma InferIs(m: Model, inputs: seq<Tensor>)
    ensures Infer(m, inputs).Ok? <==>
            m.outputNames != [] && exists args :: RunsOn(m, inputs, args) && m.run(args).Some?
    ensures forall args | RunsOn(m, inputs, args) && m.outputNames != [] ::
              Infer(m, inputs) == match m.run(args)
                                  case Some(output) => Ok(Tensor(m.outputNames[0], output))
                                  case None => Err(Backend)
  {
    if inputs != [] && |inputs| == |m.inputNames| {
      var names, rest := m.inputNames[1..], inputs[1..];
      BindsByName(names, rest);
      var bound := BindByName(names, rest);
      if bound.Ok? {
        var args := [inputs[0].value] + bound.value;
        assert args[1..] == bound.value && RunsOn(m, inputs, args);
        forall other | RunsOn(m, inputs, other) ensures other == args {
          BoundOnce(names, rest, bound.value, other[1..]);
          assert other == [other[0]] + other[1..];
        }
      } else {
        forall args | RunsOn(m, inputs, args) ensures false {
          BoundOccurs(names, rest, args[1..]);
        }
      }
    }
  }

  lemma BoundOccurs(names: seq<string>, inputs: seq<Tensor>, values: seq<Value>)
    requires Bound(names, inputs, values)
    ensures forall i | 0 <= i < |names| :: Occurs(inputs, names[i])
  {
  }

  lemma BoundOnce(names: seq<string>, inputs: seq<Tensor>, a: seq<Value>, b: seq<Value>)
    requires Bound(names, inputs, a) && Bound(names, inputs, b)
    ensures a == b
  {
    forall i | 0 <= i < |names| ensures a[i] == b[i] {
      var j: nat :| FirstNamed(inputs, names[i], j) && a[i] == inputs[j].value;
      var k: nat :| FirstNamed(inputs, names[i], k) && b[i] == inputs[k].value;
      FirstIsUnique(inputs, names[i], j, k);
    }
  }

  lemma FirstIsUnique(inputs: seq<Tensor>, name: string, j: nat, k: nat)
    requires FirstNamed(inputs, name, j) && FirstNamed(inputs, name, k)
    ensures j == k
  {
  }

  ghost predicate DistinctlyNamed(inputs: seq<Tensor>) {
    forall i, j | 0 <= i < j < |inputs| :: inputs[i].name != inputs[j].name
  }

  /** Of distinctly named tensors, the one found does not depend on the order. */
  lemma FindIgnoresOrder(a: seq<Tensor>, b: seq<Tensor>, name: string)
    requires DistinctlyNamed(a) && multiset(a) == multiset(b)
    ensures FindInput(a, name) == FindInput(b, name)
  {
    FindsFirst(a, name);
    FindsFirst(b, name);
    if Occurs(b, name) {
      var k: nat :| FirstNamed(b, name, k);
      SameMember(b, a, k);
      var i :| 0 <= i < |a| && a[i] == b[k];
      assert FirstNamed(a, name, i);
    } else if Occurs(a, name) {
      var i :| 0 <= i < |a| && a[i].name == name;
      SameMember(a, b, i);
      assert false;
    }
  }

  lemma SameMember(a: seq<Tensor>, b: seq<Tensor>, i: nat)
    requires multiset(a) == multiset(b) && i < |a|
    ensures exists j :: 0 <= j < |b| && b[j] == a[i]
  {
    assert a[i] in multiset(a) && a[i] in multiset(b);
    assert a[i] in b;
  }

  lemma {:induction false} BindIgnoresOrder(names: seq<string>, a: seq<Tensor>, b: seq<Tensor>)
    requires DistinctlyNamed(a) && multiset(a) == multiset(b)
    ensures BindByName(names, a) == BindByName(names, b)
  {
    if names != [] {
      FindIgnoresOrder(a, b, names[0]);
      BindIgnoresOrder(names[1..], a, b);
    }
  }

  /** The order of distinctly named secondary inputs, and the name of the primary
      one, make no difference. */
  lemma InferIgnoresOrder(m: Model, a: seq<Tensor>, b: seq<Tensor>)
    requires a != [] && b != [] && a[0].value == b[0].value
    requires DistinctlyNamed(a[1..]) && multiset(a[1..]) == multiset(b[1..])
    ensures Infer(m, a) == Infer(m, b)
  {
    assert |a[1..]| == |multiset(a[1..])| == |multiset(b[1..])| == |b[1..]|;
    if |a| == |m.inputNames| {
      BindIgnoresOrder(m.inputNames[1..], a[1..], b[1..]);
    }
  }

  // ----- shapes and rows ---------------------------------------------------

  function Elements(shape: seq<int>): int {
    if shape == [] then 1 else shape[0] * Elements(shape[1..])
  }

  ghost predicate Dimensions(shape: seq<int>) {
    forall i | 0 <= i < |shape| :: 0 < shape[i] <= I64_MAX
  }

  /** What the wire decoder guarantees of every request tensor. */
  ghost predicate WellFormed(v: Value) {
    && Dimensions(v.shape)
    && v.dtype.Bytes().Ok?
    && |v.data| == Elements(v.shape) * v.dtype.Bytes().value
  }

  /** A well-formed tensor with a batch dimension and at least one more. */
  ghost predicate Batched(v: Value) {
    WellFormed(v) && |v.shape| >= 2
  }

  ghost function RowBytes(v: Value): int
    requires WellFormed(v) && v.shape != []
  {
    Elements(v.shape[1..]) * v.dtype.Bytes().value
  }

  lemma {:induction false} ElementsPositive(shape: seq<int>)
    requires Dimensions(shape)
    ensures Elements(shape) > 0
  {
    if shape != [] {
      ElementsPositive(shape[1..]);
      MulPositive(shape[0], Elements(shape[1..]));
    }
  }

  lemma RowsFillData(v: Value)
    requires WellFormed(v) && v.shape != []
    ensures RowBytes(v) > 0 && |v.data| == v.shape[0] * RowBytes(v)
  {
    ElementsPositive(v.shape[1..]);
    MulAssociates(v.shape[0], Elements(v.shape[1..]), v.dtype.Bytes().value);
    MulPositive(Elements(v.shape[1..]), v.dtype.Bytes().value);
  }

  lemma MulPositive(a: int, b: int)
    requires a > 0 && b > 0
    ensures a * b > 0
  {
  }

  lemma MulAssociates(a: int, b: int, c: int)
    ensures a * b * c == a * (b * c)
  {
  }

  function Bytes(data: seq<byte>, width: nat, from: nat, count: nat): (bytes: seq<byte>)
    requires (from + count) * width <= |data|
    ensures |bytes| == count * width
  {
    MulMonotone(from, from + count, width);
    assert (from + count) * width == from * width + count * width;
    data[from * width..(from + count) * width]
  }

  /** The output has one equally wide row for each of the `rows` input rows. */
  predicate KeepsRows(output: Value, rows: int) {
    && output.shape != []
    && output.shape[0] == rows > 0
    && |output.data| % rows == 0
  }

  function OutputWidth(output: Value, rows: int): (width: nat)
    requires KeepsRows(output, rows)
    ensures width * rows == |output.data|
  {
    |output.data| / rows
  }

  // ----- what it means for a graph to be row-wise --------------------------

  ghost predicate Comparable(t: Value, u: Value) {
    && Batched(t) && Batched(u)
    && t.dtype == u.dtype
    && t.shape[1..] == u.shape[1..]
    && u.shape[0] <= t.shape[0]
  }

  /** `p` has one row per row of `u`, shaped like the rows of `o`; equal input
      rows have equal output rows. */
  ghost predicate RowsAgree(t: Value, o: Value, u: Value, p: Value)
    requires Comparable(t, u) && KeepsRows(o, t.shape[0])
  {
    && KeepsRows(p, u.shape[0])
    && p.dtype == o.dtype
    && p.shape[1..] == o.shape[1..]
    && OutputWidth(p, u.shape[0]) == OutputWidth(o, t.shape[0])
    && forall i: nat, j: nat | i < t.shape[0] && j < u.shape[0] && SameRow(t, i, u, j) ::
         SameOutputRow(o, t.shape[0], i, p, u.shape[0], j)
  }

  ghost predicate SameRow(t: Value, i: nat, u: Value, j: nat)
    requires Batched(t) && Batched(u) && i < t.shape[0] && j < u.shape[0]
  {
    RowsFillData(t);
    RowsFillData(u);
    MulMonotone(i + 1, t.shape[0], RowBytes(t));
    MulMonotone(j + 1, u.shape[0], RowBytes(u));
    Bytes(t.data, RowBytes(t), i, 1) == Bytes(u.data, RowBytes(u), j, 1)
  }

  ghost predicate SameOutputRow(o: Value, n: int, i: nat, p: Value, k: int, j: nat)
    requires KeepsRows(o, n) && KeepsRows(p, k) && i < n && j < k
  {
    MulMonotone(i + 1, n, OutputWidth(o, n));
    MulMonotone(j + 1, k, OutputWidth(p, k));
    Bytes(o.data, OutputWidth(o, n), i, 1) == Bytes(p.data, OutputWidth(p, k), j, 1)
  }

  /** Output rows depend only on the matching input rows. Nothing is asked of a
      graph that fails, or that does not keep the batch dimension of the larger
      of the two inputs. */
  ghost predicate RowWise(m: Model) {
    forall t: Value, u: Value | Comparable(t, u) && m.run([t]).Some? && m.run([u]).Some? ::
      KeepsRows(m.run([t]).value, t.shape[0]) ==>
        RowsAgree(t, m.run([t]).value, u, m.run([u]).value)
  }

  ghost predicate PartAt(t: Value, u: Value, from: nat) {
    && Comparable(t, u)
    && from + u.shape[0] <= t.shape[0]
    && (RowsFillData(t);
        MulMonotone(from + u.shape[0], t.shape[0], RowBytes(t));
        u.data == Bytes(t.data, RowBytes(t), from, u.shape[0]))
  }

  /** A graph that takes a batch and keeps its rows also takes any contiguous
      part of that batch. */
  ghost predicate TakesParts(m: Model) {
    forall t: Value, u: Value, from: nat | PartAt(t, u, from) && m.run([t]).Some? ::
      KeepsRows(m.run([t]).value, t.shape[0]) ==> m.run([u]).Some?
  }

  // ----- stacking and splitting on values ----------------------------------

  function Rows(parts: seq<Value>): seq<int>
    requires forall k | 0 <= k < |parts| :: parts[k].shape != []
  {
    seq(|parts|, k requires 0 <= k < |parts| => parts[k].shape[0])
  }

  function Data(parts: seq<Value>): seq<seq<byte>> {
    seq(|parts|, k requires 0 <= k < |parts| => parts[k].data)
  }

  /** Members of one batch group: the same element type and trailing shape. */
  ghost predicate Group(parts: seq<Value>) {
    && parts != []
    && (forall k | 0 <= k < |parts| :: Batched(parts[k]))
    && (forall k | 0 <= k < |parts| ::
          parts[k].dtype == parts[0].dtype && parts[k].shape[1..] == parts[0].shape[1..])
  }

  ghost function Stack(parts: seq<Value>): Value
    requires Group(parts)
  {
    Value(parts[0].dtype, [Sum(Rows(parts))] + parts[0].shape[1..], Flatten(Data(parts)))
  }

  function Slice(output: Value, width: nat, from: nat, count: nat): Value
    requires output.shape != [] && (from + count) * width <= |output.data|
  {
    Value(output.dtype, output.shape[0 := count], Bytes(output.data, width, from, count))
  }

  ghost predicate NonNegative(rows: seq<int>) {
    forall k | 0 <= k < |rows| :: 0 <= rows[k]
  }

  lemma {:induction false} PrefixSum(rows: seq<int>, k: nat)
    requires k <= |rows| && NonNegative(rows)
    ensures 0 <= Sum(rows[..k]) <= Sum(rows)
    ensures k < |rows| ==> Sum(rows[..k]) + rows[k] == Sum(rows[..k + 1]) <= Sum(rows)
    ensures rows != [] && rows[0] > 0 ==> Sum(rows) > 0
  {
    if rows == [] {
    } else if k == 0 {
      PrefixSum(rows[1..], 0);
      assert rows[..1] == [rows[0]];
    } else {
      PrefixSum(rows[1..], k - 1);
      assert rows[..k][1..] == rows[1..][..k - 1];
      if k < |rows| {
        assert rows[..k + 1][1..] == rows[1..][..k];
      }
    }
  }

  /** Every part has at least one row and all rows are `width` bytes wide. */
  ghost predicate EvenlyWide(parts: seq<Value>, width: nat) {
    forall k | 0 <= k < |parts| ::
      parts[k].shape != [] && 0 < parts[k].shape[0] && |parts[k].data| == parts[k].shape[0] * width
  }

  lemma {:induction false} StackedLength(parts: seq<Value>, width: nat)
    requires EvenlyWide(parts, width)
    ensures |Flatten(Data(parts))| == Sum(Rows(parts)) * width
  {
    if parts != [] {
      var rows, data := Rows(parts), Data(parts);
      assert rows[1..] == Rows(parts[1..]) && data[1..] == Data(parts[1..]);
      StackedLength(parts[1..], width);
      Distribute(rows[0], Sum(rows[1..]), width);
    }
  }

  /** In a group's stacked data, member `k` starts right after the rows of the
      members before it. */
  lemma StackedPart(parts: seq<Value>, width: nat, k: nat)
    requires EvenlyWide(parts, width) && k < |parts|
    ensures 0 <= Sum(Rows(parts)[..k])
    ensures (Sum(Rows(parts)[..k]) + parts[k].shape[0]) * width <= |Flatten(Data(parts))|
    ensures Bytes(Flatten(Data(parts)), width, Sum(Rows(parts)[..k]), parts[k].shape[0]) == parts[k].data
  {
    var rows, data := Rows(parts), Data(parts);
    assert Rows(parts[..k]) == rows[..k] && Data(parts[..k]) == data[..k];
    StackedLength(parts[..k], width);
    PrefixSum(rows, k);
    FlattenAt(data, k);
    Distribute(Sum(rows[..k]), parts[k].shape[0], width);
  }

  ghost predicate RowEqual(a: seq<byte>, b: seq<byte>, width: nat, n: nat, i: nat)
    requires |a| == |b| == n * width && i < n
  {
    MulMonotone(i + 1, n, width);
    Bytes(a, width, i, 1) == Bytes(b, width, i, 1)
  }

  /** Two byte strings of `n` rows are equal when they agree row by row. */
  lemma {:induction false} RowsDetermine(a: seq<byte>, b: seq<byte>, width: nat, n: nat)
    requires |a| == |b| == n * width
    requires forall i: nat | i < n :: RowEqual(a, b, width, n, i)
    ensures a == b
  {
    if n > 0 {
      var m := n - 1;
      Distribute(m, 1, width);
      MulMonotone(0, m, width);
      var cut := m * width;
      assert RowEqual(a, b, width, n, m);
      assert Bytes(a, width, m, 1) == a[cut..];
      assert Bytes(b, width, m, 1) == b[cut..];
      forall i: nat | i < m
        ensures RowEqual(a[..cut], b[..cut], width, m, i)
      {
        assert RowEqual(a, b, width, n, i);
        MulMonotone(i + 1, m, width);
        assert Bytes(a[..cut], width, i, 1) == Bytes(a, width, i, 1);
        assert Bytes(b[..cut], width, i, 1) == Bytes(b, width, i, 1);
      }
      RowsDetermine(a[..cut], b[..cut], width, m);
      assert a == a[..cut] + a[cut..];
      assert b == b[..cut] + b[cut..];
    }
  }

  lemma RowOfBytes(data: seq<byte>, width: nat, from: nat, count: nat, i: nat)
    requires (from + count) * width <= |data| && i < count
    ensures (i + 1) * width <= count * width && (from + i + 1) * width <= |data|
    ensures Bytes(Bytes(data, width, from, count), width, i, 1) == Bytes(data, width, from + i, 1)
  {
    MulMonotone(i + 1, count, width);
    MulMonotone(from + i + 1, from + count, width);
    Distribute(from, i, width);
    Distribute(from, i + 1, width);
    Distribute(from, count, width);
    MulMonotone(i, i + 1, width);
    MulMonotone(0, i, width);
    var x, y, z := from * width, i * width, (i + 1) * width;
    SubSlice(data, x, (from + count) * width, y, z);
  }

  lemma GroupWidth(parts: seq<Value>)
    requires Group(parts)
    ensures RowBytes(parts[0]) > 0 && EvenlyWide(parts, RowBytes(parts[0]))
    ensures forall k | 0 <= k < |parts| :: RowBytes(parts[k]) == RowBytes(parts[0])
  {
    forall k | 0 <= k < |parts|
      ensures RowBytes(parts[k]) == RowBytes(parts[0]) > 0
      ensures |parts[k].data| == parts[k].shape[0] * RowBytes(parts[0])
    {
      RowsFillData(parts[k]);
    }
  }

  ghost predicate Fits(parts: seq<Value>)
    requires Group(parts)
  {
    Sum(Rows(parts)) <= I64_MAX
  }

  lemma StackBatched(parts: seq<Value>)
    requires Group(parts) && Fits(parts)
    ensures Batched(Stack(parts)) && RowBytes(Stack(parts)) == RowBytes(parts[0])
  {
    var t := Stack(parts);
    GroupWidth(parts);
    StackedLength(parts, RowBytes(parts[0]));
    PrefixSum(Rows(parts), 0);
    assert t.shape[1..] == parts[0].shape[1..];
    forall i | 0 <= i < |t.shape| ensures 0 < t.shape[i] <= I64_MAX {
      assert i > 0 ==> t.shape[i] == parts[0].shape[i];
    }
    MulAssociates(t.shape[0], Elements(t.shape[1..]), t.dtype.Bytes().value);
  }

  ghost function Offset(parts: seq<Value>, k: nat): (from: nat)
    requires Group(parts) && k <= |parts|
  {
    PrefixSum(Rows(parts), k);
    Sum(Rows(parts)[..k])
  }

  lemma PartOfStack(parts: seq<Value>, k: nat)
    requires Group(parts) && Fits(parts) && k < |parts|
    ensures PartAt(Stack(parts), parts[k], Offset(parts, k))
  {
    StackBatched(parts);
    GroupWidth(parts);
    StackedPart(parts, RowBytes(parts[0]), k);
    PrefixSum(Rows(parts), k);
    assert Stack(parts).shape[1..] == parts[0].shape[1..];
  }

  /** Running a row-wise graph on the stack and cutting out member `k` gives
      what the graph gives for member `k` alone. */
  lemma SliceOfStackedRun(m: Model, parts: seq<Value>, k: nat)
    requires Group(parts) && Fits(parts) && k < |parts| && RowWise(m)
    requires m.run([Stack(parts)]).Some? && KeepsRows(m.run([Stack(parts)]).value, Sum(Rows(parts)))
    requires m.run([parts[k]]).Some?
    ensures parts[k].shape[0] >= 0
    ensures var o := m.run([Stack(parts)]).value;
            var width := OutputWidth(o, Sum(Rows(parts)));
            && (Offset(parts, k) + parts[k].shape[0]) * width <= |o.data|
            && m.run([parts[k]]).value == Slice(o, width, Offset(parts, k), parts[k].shape[0])
  {
    var t, u, from := Stack(parts), parts[k], Offset(parts, k);
    var o, p := m.run([t]).value, m.run([u]).value;
    PartOfStack(parts, k);
    SliceOfRun(t, o, u, p, from);
  }

  /** Row agreement, lifted from single rows to a contiguous part. */
  lemma SliceOfRun(t: Value, o: Value, u: Value, p: Value, from: nat)
    requires PartAt(t, u, from) && KeepsRows(o, t.shape[0]) && RowsAgree(t, o, u, p)
    ensures var width := OutputWidth(o, t.shape[0]);
            && (from + u.shape[0]) * width <= |o.data|
            && p == Slice(o, width, from, u.shape[0])
  {
    var n, c := t.shape[0], u.shape[0];
    var width := OutputWidth(o, n);
    MulMonotone(from + c, n, width);
    var cut := Bytes(o.data, width, from, c);
    forall i: nat | i < c
      ensures RowEqual(p.data, cut, width, c, i)
    {
      PartRow(t, u, from, i);
      assert SameOutputRow(o, n, from + i, p, c, i);
      RowOfBytes(o.data, width, from, c, i);
    }
    RowsDetermine(p.data, cut, width, c);
    assert p.shape == [p.shape[0]] + p.shape[1..];
    assert o.shape == [o.shape[0]] + o.shape[1..];
    assert o.shape[0 := c] == [c] + o.shape[1..];
  }

  lemma PartRow(t: Value, u: Value, from: nat, i: nat)
    requires PartAt(t, u, from) && i < u.shape[0]
    ensures SameRow(t, from + i, u, i)
  {
    RowsFillData(t);
    RowsFillData(u);
    MulMonotone(from + u.shape[0], t.shape[0], RowBytes(t));
    RowOfBytes(t.data, RowBytes(t), from, u.shape[0], i);
  }

  // ----- stacking and splitting ---------------------------------------------

  ghost function Parts(requests: seq<seq<Tensor>>, indices: seq<nat>): seq<Value>
    requires Groupable(requests, indices)
  {
    seq(|indices|, k requires 0 <= k < |indices| => requests[indices[k]][0].value)
  }

  ghost predicate Groupable(requests: seq<seq<Tensor>>, indices: seq<nat>) {
    forall k | 0 <= k < |indices| ::
      && indices[k] < |requests|
      && |requests[indices[k]]| == 1
      && Batched(requests[indices[k]][0].value)
  }

  method StackGroup(requests: seq<seq<Tensor>>, indices: seq<nat>) returns (r: Result<Value, Error>)
    requires indices != [] && Groupable(requests, indices)
    ensures r.Ok? <==> Group(Parts(requests, indices)) && Fits(Parts(requests, indices))
    ensures r.Ok? ==> r.value == Stack(Parts(requests, indices))
  {
    ghost var parts := Parts(requests, indices);
    var first := requests[indices[0]][0].value;
    var totalRows, data := 0, [];
    for k := 0 to |indices|
      invariant totalRows == Sum(Rows(parts[..k])) <= I64_MAX
      invariant data == Flatten(Data(parts[..k]))
      invariant forall j | 0 <= j < k ::
          parts[j].dtype == first.dtype && parts[j].shape[1..] == first.shape[1..]
    {
      var input := requests[indices[k]][0].value;
      assert input == parts[k];
      AppendPart(parts, k);
      if input.dtype != first.dtype || input.shape[1..] != first.shape[1..] {
        return Err(InvalidArgument);
      }
      if totalRows + input.shape[0] > I64_MAX {
        RowsPrefix(parts, k + 1);
        return Err(InvalidArgument);
      }
      totalRows := totalRows + input.shape[0];
      data := data + input.data;
    }
    assert parts[..|indices|] == parts;
    return Ok(Value(first.dtype, [totalRows] + first.shape[1..], data));
  }

  lemma AppendPart(parts: seq<Value>, k: nat)
    requires k < |parts| && forall j | 0 <= j < |parts| :: parts[j].shape != []
    ensures Sum(Rows(parts[..k + 1])) == Sum(Rows(parts[..k])) + parts[k].shape[0]
    ensures Flatten(Data(parts[..k + 1])) == Flatten(Data(parts[..k])) + parts[k].data
  {
    assert Rows(parts[..k + 1]) == Rows(parts[..k]) + [parts[k].shape[0]];
    SumAppend(Rows(parts[..k]), [parts[k].shape[0]]);
    assert Data(parts[..k + 1]) == Data(parts[..k]) + [parts[k].data];
    FlattenSnoc(Data(parts[..k]), parts[k].data);
  }

  lemma RowsPrefix(parts: seq<Value>, k: nat)
    requires k <= |parts| && forall j | 0 <= j < |parts| :: parts[j].shape != [] && parts[j].shape[0] > 0
    ensures Sum(Rows(parts[..k])) <= Sum(Rows(parts))
  {
    assert Rows(parts[..k]) == Rows(parts)[..k];
    PrefixSum(Rows(parts), k);
  }

  /** What the split accepts: an output with one element-aligned row per
      stacked row. */
  ghost predicate Splittable(output: Value, rows: seq<int>) {
    && NonNegative(rows)
    && KeepsRows(output, Sum(rows))
    && Sum(rows) <= U64_MAX
    && output.dtype.Bytes().Ok?
    && OutputWidth(output, Sum(rows)) % output.dtype.Bytes().value == 0
  }

  ghost function Piece(output: Value, rows: seq<int>, k: nat): Value
    requires Splittable(output, rows) && k < |rows|
  {
    PrefixSum(rows, k);
    MulMonotone(Sum(rows[..k]) + rows[k], Sum(rows), OutputWidth(output, Sum(rows)));
    Slice(output, OutputWidth(output, Sum(rows)), Sum(rows[..k]), rows[k])
  }

  method TotalRows(rows: seq<int>) returns (total: Result<nat, Error>)
    ensures total.Ok? <==> NonNegative(rows) && Sum(rows) <= U64_MAX
    ensures total.Ok? ==> total.value == Sum(rows)
  {
    var totalRows := 0;
    for k := 0 to |rows|
      invariant totalRows == Sum(rows[..k]) && 0 <= totalRows <= U64_MAX
      invariant NonNegative(rows[..k])
    {
      if rows[k] < 0 {
        return Err(Backend);
      }
      assert rows[..k + 1] == rows[..k] + [rows[k]];
      SumAppend(rows[..k], [rows[k]]);
      if totalRows + rows[k] > U64_MAX {
        if NonNegative(rows) { PrefixSum(rows, k); }
        return Err(Backend);
      }
      totalRows := totalRows + rows[k];
    }
    assert rows[..|rows|] == rows;
    return Ok(totalRows);
  }

  /** The pieces are consecutive row ranges, and together they are the output. */
  method SplitStackedOutput(output: Tensor, rows: seq<int>) returns (r: Result<seq<Tensor>, Error>)
    ensures r.Ok? ==> Splittable(output.value, rows) && |r.value| == |rows|
    ensures r.Ok? ==> forall k | 0 <= k < |rows| :: r.value[k] == Tensor(output.name, Piece(output.value, rows, k))
    ensures r.Ok? ==> Flatten(seq(|r.value|, k requires 0 <= k < |r.value| => r.value[k].value.data)) == output.value.data
    ensures r.Ok? <==> Splittable(output.value, rows) && |output.value.data| <= U64_MAX
  {
    var v := output.value;
    if v.shape == [] {
      return Err(Backend);
    }
    var totalRows :- TotalRows(rows);
    if v.shape[0] != totalRows || totalRows == 0 || |v.data| % totalRows != 0 {
      return Err(Backend);
    }
    var rowBytes := OutputWidth(v, totalRows);
    var element :- v.dtype.Bytes();
    if rowBytes % element != 0 {
      return Err(Backend);
    }
    r := CutRows(output, rows, rowBytes);
  }

  method CutRows(output: Tensor, rows: seq<int>, rowBytes: nat) returns (r: Result<seq<Tensor>, Error>)
    requires Splittable(output.value, rows) && rowBytes == OutputWidth(output.value, Sum(rows))
    ensures r.Ok? ==> |r.value| == |rows|
    ensures r.Ok? ==> forall k | 0 <= k < |rows| :: r.value[k] == Tensor(output.name, Piece(output.value, rows, k))
    ensures r.Ok? ==> Flatten(seq(|r.value|, k requires 0 <= k < |r.value| => r.value[k].value.data)) == output.value.data
    ensures r.Ok? <==> |output.value.data| <= U64_MAX
  {
    var v := output.value;
    assert v.shape != [];
    hide Splittable, Piece, PieceStart, OutputWidth, Flatten, Sum;
    NothingCut(v, rows);
    var offset: nat, results: seq<Tensor> := 0, [];
    ghost var pieces: seq<seq<byte>> := [];
    for k := 0 to |rows|
      invariant offset == PieceStart(v, rows, k) <= |v.data| && offset <= U64_MAX
      invariant |results| == |pieces| == k
      invariant forall j | 0 <= j < k :: results[j] == Tensor(output.name, Piece(v, rows, j)) && pieces[j] == results[j].value.data
      invariant Flatten(pieces) == v.data[..offset]
    {
      PieceEnd(v, rows, k, rowBytes);
      var byteLen := rows[k] * rowBytes;
      if byteLen > U64_MAX || offset + byteLen > U64_MAX {
        return Err(Backend);
      }
      var end := offset + byteLen;
      results := results + [Tensor(output.name, Value(v.dtype, v.shape[0 := rows[k]], v.data[offset..end]))];
      FlattenSnoc(pieces, v.data[offset..end]);
      assert v.data[..end] == v.data[..offset] + v.data[offset..end];
      pieces := pieces + [v.data[offset..end]];
      offset := end;
    }
    assert pieces == seq(|results|, k requires 0 <= k < |results| => results[k].value.data);
    return Ok(results);
  }

  ghost function PieceStart(v: Value, rows: seq<int>, k: nat): (start: nat)
    requires Splittable(v, rows) && k <= |rows|
  {
    PrefixSum(rows, k);
    MulMonotone(0, Sum(rows[..k]), OutputWidth(v, Sum(rows)));
    Sum(rows[..k]) * OutputWidth(v, Sum(rows))
  }

  lemma NothingCut(v: Value, rows: seq<int>)
    requires Splittable(v, rows)
    ensures Flatten<byte>([]) == [] && PieceStart(v, rows, 0) == 0 && PieceStart(v, rows, |rows|) == |v.data|
  {
    assert rows[..0] == [] && rows[..|rows|] == rows;
  }

  /** Piece `k` runs from where the rows before it end. */
  lemma PieceEnd(v: Value, rows: seq<int>, k: nat, rowBytes: nat)
    requires Splittable(v, rows) && k < |rows| && rowBytes == OutputWidth(v, Sum(rows))
    ensures 0 <= rows[k] * rowBytes
    ensures PieceStart(v, rows, k + 1) == PieceStart(v, rows, k) + rows[k] * rowBytes <= |v.data|
    ensures Piece(v, rows, k) ==
            Value(v.dtype, v.shape[0 := rows[k]], v.data[PieceStart(v, rows, k)..PieceStart(v, rows, k + 1)])
  {
    hide Sum;
    PrefixSum(rows, k);
    SpanBytes(Sum(rows[..k]), rows[k], Sum(rows[..k + 1]), Sum(rows), rowBytes);
  }

  lemma SpanBytes(from: nat, count: nat, end: nat, total: nat, width: nat)
    requires end == from + count <= total
    ensures end * width == from * width + count * width == (from + count) * width <= total * width
    ensures 0 <= count * width
  {
    Distribute(from, count, width);
    MulMonotone(end, total, width);
    MulMonotone(0, count, width);
  }

  datatype BatchKey = BatchKey(dtype: Dtype, trailing: seq<int>)

  function KeyOf(v: Value): BatchKey
    requires v.shape != []
  {
    BatchKey(v.dtype, v.shape[1..])
  }

  ghost predicate AllRequestsRun(m: Model, requests: seq<seq<Tensor>>) {
    forall i | 0 <= i < |requests| :: Infer(m, requests[i]).Ok?
  }

  lemma InferAlone(m: Model, input: Tensor)
    requires |m.inputNames| == 1 && m.outputNames != []
    ensures Infer(m, [input]) ==
            match m.run([input.value])
            case Some(output) => Ok(Tensor(m.outputNames[0], output))
            case None => Err(Backend)
  {
    assert [input.value] + [] == [input.value];
  }

  // ----- what a batch answers ----------------------------------------------

  /** What the wire decoder guarantees of all requests. */
  ghost predicate Decoded(requests: seq<seq<Tensor>>) {
    forall i, j | 0 <= i < |requests| && 0 <= j < |requests[i]| :: WellFormed(requests[i][j].value)
  }

  /** Only a lone primary input with a batch dimension joins a group. */
  predicate Joins(inputs: seq<Tensor>) {
    |inputs| == 1 && |inputs[0].value.shape| >= 2
  }

  predicate JoinsGroup(inputs: seq<Tensor>, key: BatchKey) {
    Joins(inputs) && KeyOf(inputs[0].value) == key
  }

  /** The members of a key's group among the first `n` requests, in order. */
  function Members(requests: seq<seq<Tensor>>, key: BatchKey, n: nat): (members: seq<nat>)
    requires n <= |requests|
    ensures forall k | 0 <= k < |members| :: members[k] < n && JoinsGroup(requests[members[k]], key)
  {
    if n == 0 then []
    else if JoinsGroup(requests[n - 1], key) then Members(requests, key, n - 1) + [n - 1]
    else Members(requests, key, n - 1)
  }

  ghost function GroupAt(requests: seq<seq<Tensor>>, i: nat): seq<nat>
    requires i < |requests| && Joins(requests[i])
  {
    Members(requests, KeyOf(requests[i][0].value), |requests|)
  }

  /** The place of request `i` in its group: as many members come before it. */
  ghost function PlaceInGroup(requests: seq<seq<Tensor>>, i: nat): nat
    requires i < |requests| && Joins(requests[i])
  {
    |Members(requests, KeyOf(requests[i][0].value), i)|
  }

  /** A member's place before request `n` is also its place among all. */
  lemma {:induction false} MemberPlace(requests: seq<seq<Tensor>>, key: BatchKey, i: nat, n: nat)
    requires i < n <= |requests| && JoinsGroup(requests[i], key)
    ensures |Members(requests, key, i)| < |Members(requests, key, n)|
    ensures Members(requests, key, n)[|Members(requests, key, i)|] == i
  {
    if i < n - 1 {
      MemberPlace(requests, key, i, n - 1);
    }
  }

  lemma {:induction false} PlaceOfMember(requests: seq<seq<Tensor>>, key: BatchKey, k: nat, n: nat)
    requires n <= |requests| && k < |Members(requests, key, n)|
    ensures |Members(requests, key, Members(requests, key, n)[k])| == k
  {
    if JoinsGroup(requests[n - 1], key) && k == |Members(requests, key, n - 1)| {
    } else {
      PlaceOfMember(requests, key, k, n - 1);
    }
  }

  /** A request's group is made up of the requests with a lone primary input of at
      least two dimensions, of its element type and trailing shape, in order. */
  lemma GroupedTogetherIff(requests: seq<seq<Tensor>>, i: nat, j: nat)
    requires i < |requests| && |requests[i]| == 1 && |requests[i][0].value.shape| >= 2
    ensures j in GroupAt(requests, i) <==>
            && j < |requests| && |requests[j]| == 1 && |requests[j][0].value.shape| >= 2
            && requests[j][0].value.dtype == requests[i][0].value.dtype
            && requests[j][0].value.shape[1..] == requests[i][0].value.shape[1..]
    ensures forall k, m | 0 <= k < m < |GroupAt(requests, i)| :: GroupAt(requests, i)[k] < GroupAt(requests, i)[m]
  {
    var key := KeyOf(requests[i][0].value);
    MembersIncrease(requests, key, |requests|);
    if j < |requests| && JoinsGroup(requests[j], key) {
      MemberPlace(requests, key, j, |requests|);
    }
  }

  lemma {:induction false} MembersIncrease(requests: seq<seq<Tensor>>, key: BatchKey, n: nat)
    requires n <= |requests|
    ensures forall k, m | 0 <= k < m < |Members(requests, key, n)| :: Members(requests, key, n)[k] < Members(requests, key, n)[m]
  {
    if n > 0 {
      MembersIncrease(requests, key, n - 1);
    }
  }

  lemma MembersFormGroup(requests: seq<seq<Tensor>>, key: BatchKey)
    requires Decoded(requests) && Members(requests, key, |requests|) != []
    ensures Groupable(requests, Members(requests, key, |requests|))
    ensures Group(Parts(requests, Members(requests, key, |requests|)))
  {
    var members := Members(requests, key, |requests|);
    forall k | 0 <= k < |members|
      ensures |requests[members[k]]| == 1 && Batched(requests[members[k]][0].value)
      ensures KeyOf(requests[members[k]][0].value) == key
    {
      assert WellFormed(requests[members[k]][0].value);
    }
  }

  /** The stacked group runs and its output can be split. */
  ghost predicate StackRuns(m: Model, parts: seq<Value>)
    requires Group(parts)
  {
    && Fits(parts)
    && var output := Infer(m, [Tensor("input", Stack(parts))]);
       output.Ok? && Splittable(output.value.value, Rows(parts)) && |output.value.value.data| <= U64_MAX
  }

  ghost function StackedAnswer(m: Model, parts: seq<Value>, k: nat): Tensor
    requires Group(parts) && StackRuns(m, parts) && k < |parts|
  {
    var output := Infer(m, [Tensor("input", Stack(parts))]).value;
    Tensor(output.name, Piece(output.value, Rows(parts), k))
  }

  /** Request `i` is answered from a stacked run: its group has company, and runs
      and splits as a stack. */
  ghost predicate AnsweredStacked(m: Model, requests: seq<seq<Tensor>>, i: nat)
    requires Decoded(requests) && i < |requests| && Joins(requests[i])
  {
    MemberPlace(requests, KeyOf(requests[i][0].value), i, |requests|);
    MembersFormGroup(requests, KeyOf(requests[i][0].value));
    |GroupAt(requests, i)| >= 2 && StackRuns(m, Parts(requests, GroupAt(requests, i)))
  }

  /** The answer to request `i` of a batch, told request by request. */
  ghost function Answer(m: Model, requests: seq<seq<Tensor>>, i: nat): Result<Tensor, Error>
    requires Decoded(requests) && i < |requests|
  {
    if requests[i] == [] then Err(NoPrimaryInput(i))
    else if Joins(requests[i]) && AnsweredStacked(m, requests, i) then
      MemberPlace(requests, KeyOf(requests[i][0].value), i, |requests|);
      MembersFormGroup(requests, KeyOf(requests[i][0].value));
      Ok(StackedAnswer(m, Parts(requests, GroupAt(requests, i)), PlaceInGroup(requests, i)))
    else Infer(m, requests[i])
  }

  ghost predicate BatchSucceeds(m: Model, requests: seq<seq<Tensor>>)
    requires Decoded(requests)
  {
    forall i | 0 <= i < |requests| :: Answer(m, requests, i).Ok?
  }

  /** A batch answer for one request is what that request would get alone. */
  ghost predicate Faithful(m: Model, inputs: seq<Tensor>, output: Tensor) {
    && (RowWise(m) && Infer(m, inputs).Ok? ==> output == Infer(m, inputs).value)
    && (RowWise(m) && TakesParts(m) ==> Infer(m, inputs).Ok?)
  }

  lemma StackedAnswerIsFaithful(m: Model, parts: seq<Value>, k: nat, name: string)
    requires Group(parts) && StackRuns(m, parts) && k < |parts|
    ensures Faithful(m, [Tensor(name, parts[k])], StackedAnswer(m, parts, k))
  {
    InferAlone(m, Tensor("input", Stack(parts)));
    InferAlone(m, Tensor(name, parts[k]));
    if RowWise(m) && TakesParts(m) {
      PartOfStack(parts, k);
    }
    if RowWise(m) && m.run([parts[k]]).Some? {
      SliceOfStackedRun(m, parts, k);
    }
  }

  /** Every batch answer is faithful, and a request that runs alone has one. */
  lemma AnswerIsFaithful(m: Model, requests: seq<seq<Tensor>>, i: nat)
    requires Decoded(requests) && i < |requests|
    ensures Answer(m, requests, i).Ok? ==> Faithful(m, requests[i], Answer(m, requests, i).value)
    ensures Infer(m, requests[i]).Ok? ==> Answer(m, requests, i).Ok?
    ensures Answer(m, requests, i).Err? ==> !Answer(m, requests, i).error.MissingResult?
  {
    hide Faithful, Infer, StackRuns;
    if Joins(requests[i]) && AnsweredStacked(m, requests, i) {
      MemberPlace(requests, KeyOf(requests[i][0].value), i, |requests|);
      MembersFormGroup(requests, KeyOf(requests[i][0].value));
      var parts := Parts(requests, GroupAt(requests, i));
      StackedAnswerIsFaithful(m, parts, PlaceInGroup(requests, i), requests[i][0].name);
      assert requests[i] == [Tensor(requests[i][0].name, parts[PlaceInGroup(requests, i)])];
    } else {
      AloneIsFaithful(m, requests[i]);
    }
  }

  lemma AloneIsFaithful(m: Model, inputs: seq<Tensor>)
    ensures Infer(m, inputs).Ok? ==> inputs != [] && Faithful(m, inputs, Infer(m, inputs).value)
    ensures Infer(m, inputs).Err? ==> !Infer(m, inputs).error.MissingResult?
  {
  }

  // ----- running a batch -----------------------------------------------------

  method InferStacked(m: Model, stacked: Value, requests: seq<seq<Tensor>>, indices: seq<nat>)
    returns (r: Result<seq<Tensor>, Error>)
    requires indices != [] && Groupable(requests, indices)
    requires Group(Parts(requests, indices)) && Fits(Parts(requests, indices))
    requires stacked == Stack(Parts(requests, indices))
    ensures r.Ok? <==> StackRuns(m, Parts(requests, indices))
    ensures r.Ok? ==> |r.value| == |indices|
    ensures r.Ok? ==> forall k | 0 <= k < |indices| :: r.value[k] == StackedAnswer(m, Parts(requests, indices), k)
    ensures r.Ok? ==> forall k | 0 <= k < |indices| :: Faithful(m, requests[indices[k]], r.value[k])
  {
    hide Faithful, RowWise, TakesParts, Splittable;
    var output :- Infer(m, [Tensor("input", stacked)]);
    var rows := seq(|indices|, k requires 0 <= k < |indices| => requests[indices[k]][0].value.shape[0]);
    r := SplitStackedOutput(output, rows);
    ghost var parts := Parts(requests, indices);
    assert rows == Rows(parts);
    if r.Ok? {
      forall k | 0 <= k < |indices|
        ensures Faithful(m, requests[indices[k]], r.value[k])
      {
        var request := requests[indices[k]];
        StackedAnswerIsFaithful(m, parts, k, request[0].name);
        assert request == [Tensor(request[0].name, parts[k])];
      }
    }
  }

  /** Every filled slot holds its batch answer. */
  ghost predicate Sound(m: Model, requests: seq<seq<Tensor>>, results: seq<Option<Tensor>>)
    requires Decoded(requests)
  {
    && |results| == |requests|
    && forall j | 0 <= j < |requests| && results[j].Some? :: Answer(m, requests, j) == Ok(results[j].value)
  }

  ghost predicate SomeAnswerFails(m: Model, requests: seq<seq<Tensor>>, error: Error)
    requires Decoded(requests)
  {
    exists j | 0 <= j < |requests| :: Answer(m, requests, j) == Err(error)
  }

  /** Request `j` waits in the group of its key, one of `keys`. */
  ghost predicate Waits(requests: seq<seq<Tensor>>, keys: set<BatchKey>, j: nat)
    requires j < |requests|
  {
    Joins(requests[j]) && KeyOf(requests[j][0].value) in keys
  }

  lemma Ungrouped(m: Model, requests: seq<seq<Tensor>>, i: nat)
    requires Decoded(requests) && i < |requests|
    ensures !Joins(requests[i]) ==>
        Answer(m, requests, i) == if requests[i] == [] then Err(NoPrimaryInput(i)) else Infer(m, requests[i])
  {
  }

  /** What a group's path means for its member `k`. */
  lemma MemberAnswer(m: Model, requests: seq<seq<Tensor>>, key: BatchKey, k: nat)
    requires Decoded(requests) && k < |Members(requests, key, |requests|)|
    ensures var indices := Members(requests, key, |requests|);
            && Groupable(requests, indices) && Group(Parts(requests, indices))
            && Answer(m, requests, indices[k]) ==
                 if |indices| >= 2 && StackRuns(m, Parts(requests, indices))
                 then Ok(StackedAnswer(m, Parts(requests, indices), k))
                 else Infer(m, requests[indices[k]])
  {
    hide StackRuns, StackedAnswer, Infer;
    MembersFormGroup(requests, key);
    PlaceOfMember(requests, key, k, |requests|);
  }

  /** One group: stacked if that works, otherwise request by request. */
  method InferGroup(m: Model, requests: seq<seq<Tensor>>, indices: seq<nat>, results: seq<Option<Tensor>>, ghost key: BatchKey)
    returns (r: Result<seq<Option<Tensor>>, Error>)
    requires Decoded(requests) && Sound(m, requests, results)
    requires indices == Members(requests, key, |requests|) != []
    ensures r.Ok? <==> forall j | j in indices :: Answer(m, requests, j).Ok?
    ensures r.Ok? ==> Sound(m, requests, r.value)
    ensures r.Ok? ==> forall j | 0 <= j < |requests| && j in indices :: r.value[j].Some?
    ensures r.Ok? ==> forall j | 0 <= j < |requests| && j !in indices :: r.value[j] == results[j]
    ensures r.Err? ==> SomeAnswerFails(m, requests, r.error)
  {
    hide Answer, Infer, StackedAnswer, Decoded, Faithful, Groupable, Splittable;
    forall k | 0 <= k < |indices| { MemberAnswer(m, requests, key, k); }
    MemberAnswer(m, requests, key, 0);
    var updated := results;
    if |indices| == 1 {
      var output := Infer(m, requests[indices[0]]);
      assert Answer(m, requests, indices[0]) == output;
      if output.Err? {
        return Err(output.error);
      }
      return Ok(updated[indices[0] := Some(output.value)]);
    }
    var stacked := StackGroup(requests, indices);
    var outputs: Result<seq<Tensor>, Error> := Err(InvalidArgument);
    if stacked.Ok? {
      outputs := InferStacked(m, stacked.value, requests, indices);
    }
    assert outputs.Ok? <==> StackRuns(m, Parts(requests, indices));
    r := FillSlots(m, requests, indices, results, outputs);
  }

  method FillSlots(m: Model, requests: seq<seq<Tensor>>, indices: seq<nat>, results: seq<Option<Tensor>>, outputs: Result<seq<Tensor>, Error>)
    returns (r: Result<seq<Option<Tensor>>, Error>)
    requires Decoded(requests) && Sound(m, requests, results)
    requires forall k | 0 <= k < |indices| :: indices[k] < |requests|
    requires outputs.Ok? ==> |outputs.value| == |indices|
    requires forall k | 0 <= k < |indices| ::
        Answer(m, requests, indices[k]) == if outputs.Ok? then Ok(outputs.value[k]) else Infer(m, requests[indices[k]])
    ensures r.Ok? <==> forall j | j in indices :: Answer(m, requests, j).Ok?
    ensures r.Ok? ==> Sound(m, requests, r.value)
    ensures r.Ok? ==> forall j | 0 <= j < |requests| && j in indices :: r.value[j].Some?
    ensures r.Ok? ==> forall j | 0 <= j < |requests| && j !in indices :: r.value[j] == results[j]
    ensures r.Err? ==> SomeAnswerFails(m, requests, r.error)
  {
    hide Answer, Infer, Decoded;
    var updated := results;
    for k := 0 to |indices|
      invariant Sound(m, requests, updated)
      invariant forall i | 0 <= i < k :: updated[indices[i]].Some?
      invariant forall j | 0 <= j < |requests| && j !in indices :: updated[j] == results[j]
    {
      if outputs.Ok? {
        updated := updated[indices[k] := Some(outputs.value[k])];
      } else {
        var output := Infer(m, requests[indices[k]]);
        assert Answer(m, requests, indices[k]) == output;
        if output.Err? {
          return Err(output.error);
        }
        updated := updated[indices[k] := Some(output.value)];
      }
    }
    assert forall j | j in indices :: updated[j].Some?;
    return Ok(updated);
  }

  /** The first pass: requests that cannot be grouped run at once, the others
      join the group of their key. */
  method CollectGroups(m: Model, requests: seq<seq<Tensor>>)
    returns (r: Result<(seq<Option<Tensor>>, map<BatchKey, seq<nat>>), Error>)
    requires Decoded(requests)
    ensures r.Ok? ==> Sound(m, requests, r.value.0)
    ensures r.Ok? ==> forall key | key in r.value.1 :: r.value.1[key] == Members(requests, key, |requests|) != []
    ensures r.Ok? ==> forall j | 0 <= j < |requests| ::
        if Joins(requests[j]) then Waits(requests, r.value.1.Keys, j) && r.value.0[j].None? else r.value.0[j].Some?
    ensures r.Ok? <==> forall j | 0 <= j < |requests| && !Joins(requests[j]) :: Answer(m, requests, j).Ok?
    ensures r.Err? ==> SomeAnswerFails(m, requests, r.error)
  {
    hide Answer, Infer, Decoded;
    var results: seq<Option<Tensor>> := seq(|requests|, _ => None);
    var groups: map<BatchKey, seq<nat>> := map[];
    for i := 0 to |requests|
      invariant Sound(m, requests, results)
      invariant forall key | key in groups :: groups[key] == Members(requests, key, i) != []
      invariant forall key | key !in groups :: Members(requests, key, i) == []
      invariant forall j | 0 <= j < i :: if Joins(requests[j]) then Waits(requests, groups.Keys, j) else results[j].Some?
      invariant forall j | 0 <= j < |requests| && (i <= j || Joins(requests[j])) :: results[j].None?
    {
      Ungrouped(m, requests, i);
      if requests[i] == [] {
        return Err(NoPrimaryInput(i));
      }
      var primary := requests[i][0].value;
      if |requests[i]| != 1 || |primary.shape| < 2 {
        var output := Infer(m, requests[i]);
        if output.Err? {
          return Err(output.error);
        }
        results := results[i := Some(output.value)];
      } else {
        var key := KeyOf(primary);
        groups := groups[key := (if key in groups then groups[key] else []) + [i]];
      }
    }
    return Ok((results, groups));
  }

  /** Batch inference, in full: it succeeds exactly when every request has a batch
      answer, and returns these, whatever the order in which groups are visited.
      So, for a row-wise graph, the answer to every request is the one it gets
      alone; the batch succeeds whenever every request does, for any graph at
      all; and no result slot is ever left empty. */
  method InferBatch(m: Model, requests: seq<seq<Tensor>>) returns (r: Result<seq<Tensor>, Error>)
    requires Decoded(requests)
    ensures r.Ok? <==> BatchSucceeds(m, requests)
    ensures r.Ok? ==> |r.value| == |requests|
    ensures r.Ok? ==> forall i | 0 <= i < |requests| :: Answer(m, requests, i) == Ok(r.value[i])
    ensures r.Ok? ==> forall i | 0 <= i < |requests| :: Faithful(m, requests[i], r.value[i])
    ensures RowWise(m) && AllRequestsRun(m, requests) ==>
        r == Ok(seq(|requests|, i requires 0 <= i < |requests| => Infer(m, requests[i]).value))
    ensures RowWise(m) && TakesParts(m) ==> (r.Ok? <==> AllRequestsRun(m, requests))
    ensures AllRequestsRun(m, requests) ==> r.Ok?
    ensures r.Err? ==> SomeAnswerFails(m, requests, r.error) && !r.error.MissingResult?
  {
    hide Answer, Infer, Decoded, RowWise, TakesParts, Faithful;
    BatchIsFaithful(m, requests);
    var collected :- CollectGroups(m, requests);
    var (results, groups) := collected;
    var remaining := groups.Keys;
    while remaining != {}
      invariant remaining <= groups.Keys
      invariant Sound(m, requests, results)
      invariant forall j | 0 <= j < |requests| :: results[j].Some? || Waits(requests, remaining, j)
    {
      var key :| key in remaining;
      ghost var before := results;
      results :- InferGroup(m, requests, groups[key], results, key);
      WaitersLeft(requests, key, remaining, before, results);
      remaining := remaining - {key};
    }
    var outputs: seq<Tensor> := [];
    for i := 0 to |requests|
      invariant |outputs| == i
      invariant forall j | 0 <= j < i :: results[j] == Some(outputs[j])
    {
      if results[i].None? {
        return Err(MissingResult(i));
      }
      outputs := outputs + [results[i].value];
    }
    if RowWise(m) && AllRequestsRun(m, requests) {
      assert outputs == seq(|requests|, i requires 0 <= i < |requests| => Infer(m, requests[i]).value);
    }
    return Ok(outputs);
  }

  /** A group that has run leaves only the members of other groups waiting. */
  lemma WaitersLeft(requests: seq<seq<Tensor>>, key: BatchKey, keys: set<BatchKey>,
                    before: seq<Option<Tensor>>, after: seq<Option<Tensor>>)
    requires |before| == |after| == |requests|
    requires forall j | 0 <= j < |requests| :: before[j].Some? || Waits(requests, keys, j)
    requires forall j | 0 <= j < |requests| && j in Members(requests, key, |requests|) :: after[j].Some?
    requires forall j | 0 <= j < |requests| && j !in Members(requests, key, |requests|) :: after[j] == before[j]
    ensures forall j | 0 <= j < |requests| :: after[j].Some? || Waits(requests, keys - {key}, j)
  {
    forall j | 0 <= j < |requests| && JoinsGroup(requests[j], key) ensures after[j].Some? {
      MemberPlace(requests, key, j, |requests|);
    }
  }

  /** What the batch answers mean for a caller who could also infer one by one. */
  lemma BatchIsFaithful(m: Model, requests: seq<seq<Tensor>>)
    requires Decoded(requests)
    ensures BatchSucceeds(m, requests) ==>
        forall i | 0 <= i < |requests| :: Faithful(m, requests[i], Answer(m, requests, i).value)
    ensures AllRequestsRun(m, requests) ==> BatchSucceeds(m, requests)
    ensures RowWise(m) && TakesParts(m) ==> (BatchSucceeds(m, requests) <==> AllRequestsRun(m, requests))
    ensures RowWise(m) && AllRequestsRun(m, requests) ==>
        forall i | 0 <= i < |requests| :: Answer(m, requests, i) == Infer(m, requests[i])
    ensures forall i | 0 <= i < |requests| ::
        Answer(m, requests, i).Err? ==> !Answer(m, requests, i).error.MissingResult?
  {
    hide Answer, Infer, Decoded, RowWise, TakesParts;
    forall i | 0 <= i < |requests| { AnswerIsFaithful(m, requests, i); }
  }

  // ----- when a batch succeeds though a request alone fails -----------------

  /** The group of request `i` stacks successfully although the request fails
      alone. */
  ghost predicate Outdone(m: Model, requests: seq<seq<Tensor>>, i: nat)
    requires Decoded(requests) && i < |requests|
  {
    Joins(requests[i]) && AnsweredStacked(m, requests, i) && Infer(m, requests[i]).Err?
  }

  /** The exact gap between batches and single requests: a successful batch means
      that every request runs alone, unless a stacked group outdoes a member. */
  lemma BatchAgreesIff(m: Model, requests: seq<seq<Tensor>>)
    requires Decoded(requests)
    ensures BatchSucceeds(m, requests) <==>
        forall i | 0 <= i < |requests| :: Infer(m, requests[i]).Ok? || Outdone(m, requests, i)
    ensures BatchSucceeds(m, requests) ==>
        (AllRequestsRun(m, requests) <==> forall i | 0 <= i < |requests| :: !Outdone(m, requests, i))
  {
    hide AnsweredStacked, Decoded;
    forall i | 0 <= i < |requests|
      ensures Answer(m, requests, i).Ok? <==> Infer(m, requests[i]).Ok? || Outdone(m, requests, i)
    {
    }
  }

  /** Whenever a stack of several members runs and splits, so does every member. */
  ghost predicate TakesMembers(m: Model) {
    forall parts, k | 0 <= k < |parts| && |parts| >= 2 && Group(parts) && StackRuns(m, parts) ::
      Infer(m, Alone(parts[k])).Ok?
  }

  function Alone(v: Value): seq<Tensor> {
    [Tensor("x", v)]
  }

  ghost predicate BatchesAgree(m: Model) {
    forall requests | Decoded(requests) && BatchSucceeds(m, requests) :: AllRequestsRun(m, requests)
  }

  /** For a graph, no batch is ever more permissive than its requests exactly when
      the graph takes the members of every stack it takes. */
  lemma BatchesAgreeIff(m: Model)
    ensures BatchesAgree(m) <==> TakesMembers(m)
  {
    hide Decoded, BatchSucceeds, AllRequestsRun, StackRuns, Infer;
    if TakesMembers(m) {
      forall requests | Decoded(requests) && BatchSucceeds(m, requests) ensures AllRequestsRun(m, requests) {
        MembersRunAlone(m, requests);
      }
    }
    if BatchesAgree(m) {
      forall parts, k | 0 <= k < |parts| && |parts| >= 2 && Group(parts) && StackRuns(m, parts)
        ensures Infer(m, Alone(parts[k])).Ok?
      {
        StackAsBatch(m, parts);
        MemberRuns(m, parts, k);
      }
    }
  }

  lemma MemberRuns(m: Model, parts: seq<Value>, k: nat)
    requires AllRequestsRun(m, Apart(parts)) && k < |parts|
    ensures Infer(m, Alone(parts[k])).Ok?
  {
    assert Infer(m, Apart(parts)[k]).Ok?;
  }

  lemma MembersRunAlone(m: Model, requests: seq<seq<Tensor>>)
    requires TakesMembers(m) && Decoded(requests) && BatchSucceeds(m, requests)
    ensures AllRequestsRun(m, requests)
  {
    BatchAgreesIff(m, requests);
    hide StackRuns, Infer, Answer;
    forall i | 0 <= i < |requests| ensures !Outdone(m, requests, i) {
      if Joins(requests[i]) && AnsweredStacked(m, requests, i) {
        var parts := Parts(requests, GroupAt(requests, i));
        MemberPlace(requests, KeyOf(requests[i][0].value), i, |requests|);
        MembersFormGroup(requests, KeyOf(requests[i][0].value));
        assert Infer(m, Alone(parts[PlaceInGroup(requests, i)])).Ok?;
        NameIsIrrelevant(m, requests[i], "x");
      }
    }
  }

  lemma NameIsIrrelevant(m: Model, inputs: seq<Tensor>, name: string)
    requires |inputs| == 1
    ensures Infer(m, inputs) == Infer(m, [Tensor(name, inputs[0].value)])
  {
    assert inputs[1..] == [Tensor(name, inputs[0].value)][1..];
  }

  function Apart(parts: seq<Value>): seq<seq<Tensor>> {
    seq(|parts|, k requires 0 <= k < |parts| => Alone(parts[k]))
  }

  lemma {:induction false} ApartMembers(parts: seq<Value>, n: nat)
    requires Group(parts) && n <= |parts|
    ensures Members(Apart(parts), KeyOf(parts[0]), n) == seq(n, k => k)
  {
    if n > 0 {
      ApartMembers(parts, n - 1);
      assert JoinsGroup(Apart(parts)[n - 1], KeyOf(parts[0]));
    }
  }

  /** A group sent as a batch of its own is one group of the batcher. */
  lemma StackAsBatch(m: Model, parts: seq<Value>)
    requires Group(parts) && |parts| >= 2 && StackRuns(m, parts)
    ensures Decoded(Apart(parts)) && BatchSucceeds(m, Apart(parts))
  {
    hide StackRuns, Infer, StackedAnswer;
    var requests := Apart(parts);
    forall i | 0 <= i < |requests|
      ensures Decoded(requests) && Answer(m, requests, i).Ok?
    {
      ApartMembers(parts, |parts|);
      assert GroupAt(requests, i) == seq(|parts|, k => k);
      MembersFormGroup(requests, KeyOf(parts[0]));
      assert Parts(requests, GroupAt(requests, i)) == parts;
    }
  }

  /** The identity graph, compiled for batches of at least two rows. */
  function PairsOnly(): Model {
    Model(["x"], ["y"], (inputs: seq<Value>) =>
      if |inputs| == 1 && inputs[0].shape != [] && inputs[0].shape[0] >= 2 then Some(inputs[0]) else None)
  }

  /** It does happen: this graph is row-wise and rejects a single row, and the
      batch of two single rows succeeds. */
  lemma BatchMayOutdoSingleRequests()
    ensures RowWise(PairsOnly()) && !TakesParts(PairsOnly())
    ensures var x := Tensor("x", Value(U8, [1, 1], [7]));
            && Infer(PairsOnly(), [x]).Err?
            && Decoded([[x], [x]])
            && BatchSucceeds(PairsOnly(), [[x], [x]])
  {
    PairsOnlyIsRowWise();
    var row := Value(U8, [1, 1], [7]);
    var parts := [row, row];
    TwoRows(row);
    PartOfStack(parts, 0);
    assert PairsOnly().run([row]).None? && PairsOnly().run([Stack(parts)]).Some?;
    InferAlone(PairsOnly(), Tensor("x", row));
    InferAlone(PairsOnly(), Tensor("input", Stack(parts)));
    PairSplits(row);
    StackAsBatch(PairsOnly(), parts);
    assert Apart(parts) == [[Tensor("x", row)], [Tensor("x", row)]];
  }

  lemma PairSplits(row: Value)
    requires row == Value(U8, [1, 1], [7])
    ensures Group([row, row]) && Stack([row, row]).data == [7, 7]
    ensures Fits([row, row]) && Splittable(Stack([row, row]), Rows([row, row]))
  {
    TwoRows(row);
    assert U8.Bytes().value == 1;
  }

  lemma TwoRows(row: Value)
    requires row == Value(U8, [1, 1], [7])
    ensures Group([row, row]) && Rows([row, row]) == [1, 1] && Sum([1, 1]) == 2
    ensures Data([row, row]) == [[7], [7]] && Flatten(Data([row, row])) == [7, 7]
    ensures KeepsRows(Stack([row, row]), 2)
  {
    assert [1, 1][1..] == [1] && Elements([1]) == 1 * Elements([]) == 1;
    var data: seq<seq<byte>> := [[7], [7]];
    assert data[1..] == [[7]] && Flatten(data[1..]) == [7] + [];
    assert Data([row, row]) == data;
    assert Rows([row, row]) == [1, 1];
  }

  lemma PairsOnlyIsRowWise()
    ensures RowWise(PairsOnly())
  {
    var m := PairsOnly();
    forall t: Value, u: Value | Comparable(t, u) && m.run([t]).Some? && m.run([u]).Some?
      ensures KeepsRows(m.run([t]).value, t.shape[0]) ==>
                RowsAgree(t, m.run([t]).value, u, m.run([u]).value)
    {
      IdentityAgrees(t, u);
    }
  }

  lemma IdentityAgrees(t: Value, u: Value)
    requires Comparable(t, u)
    ensures KeepsRows(t, t.shape[0]) && RowsAgree(t, t, u, u)
  {
    RowsFillData(t);
    RowsFillData(u);
    WidthOf(t);
    WidthOf(u);
  }

  lemma WidthOf(t: Value)
    requires Batched(t)
    ensures KeepsRows(t, t.shape[0]) && OutputWidth(t, t.shape[0]) == RowBytes(t)
  {
    RowsFillData(t);
    ExactQuotient(RowBytes(t), t.shape[0]);
  }

  lemma ExactQuotient(width: int, rows: int)
    requires width > 0 && rows > 0
    ensures rows * width % rows == 0 && rows * width / rows == width
  {
    DivModUnique(rows * width, rows, width, 0);
  }
}
