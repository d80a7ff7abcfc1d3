/** Schema-driven widget ids (`dpg_uuid`) and the mirror between a tree of
    widget ids and the toolkit's value store (`dpg_get_values`,
    `dpg_set_values`). A schema is a class's declared field list in
    declaration order; an instance holds one node per field, positionally. */
module Schema {
  import opened Base
  import opened Toolkit

  /** What a field's annotation declares. */
  datatype FieldType =
    | Leaf(typeName: string)          // one widget; the annotation coerces the value read
    | RawTuple(slots: seq<string>)    // a named tuple without annotations: one widget per slot
    | Nested(fields: seq<Field>)      // a nested schema, or a named tuple with annotations
    | Wrapper(fields: seq<Field>)     // another `dpg_uuid(...)` wrapper, over these fields

  datatype Field = Field(name: string, ty: FieldType)

  /** An instance of a schema: ids (from `dpg_uuid`) or values (from
      `dpg_get_values`, or given to `dpg_set_values`). */
  datatype Tree<T> = Scalar(value: T) | Group(items: seq<Tree<T>>)

  // ---------------------------------------------------------------------
  // Shape

  /** Number of widgets the fields declare. */
  function LeafCount(fs: seq<Field>): nat
  {
    if fs == [] then 0 else LeafCount(fs[..|fs| - 1]) + FieldLeafCount(fs[|fs| - 1])
  }

  function FieldLeafCount(f: Field): nat
  {
    match f.ty
    case Leaf(_) => 1
    case RawTuple(slots) => |slots|
    case Nested(fields) => LeafCount(fields)
    case Wrapper(fields) => LeafCount(fields)
  }

  /** The scalars of an instance, left to right. */
  function Leaves<T>(ts: seq<Tree<T>>): seq<T>
  {
    if ts == [] then [] else Leaves(ts[..|ts| - 1]) + TreeLeaves(ts[|ts| - 1])
  }

  function TreeLeaves<T>(t: Tree<T>): seq<T>
  {
    match t
    case Scalar(v) => [v]
    case Group(items) => Leaves(items)
  }

  /** The instance has exactly the fields' shape: one node per field, a
      scalar for a leaf, one scalar per slot of a raw tuple. */
  predicate Conforms<T>(ts: seq<Tree<T>>, fs: seq<Field>)
  {
    |ts| == |fs| && (fs == [] || (Conforms(ts[..|ts| - 1], fs[..|fs| - 1]) && FieldConforms(ts[|ts| - 1], fs[|fs| - 1])))
  }

  predicate FieldConforms<T>(t: Tree<T>, f: Field)
  {
    match f.ty
    case Leaf(_) => t.Scalar?
    case RawTuple(slots) => t.Group? && |t.items| == |slots| && forall i :: 0 <= i < |t.items| ==> t.items[i].Scalar?
    case Nested(fields) => t.Group? && Conforms(t.items, fields)
    case Wrapper(fields) => t.Group? && Conforms(t.items, fields)
  }

  /** Fields `dpg_get_values` and `dpg_set_values` can handle: neither a raw
      named tuple nor a wrapper occurs anywhere inside. */
  predicate Supported(fs: seq<Field>)
  {
    fs == [] || (Supported(fs[..|fs| - 1]) && FieldSupported(fs[|fs| - 1]))
  }

  predicate FieldSupported(f: Field)
  {
    match f.ty
    case Leaf(_) => true
    case RawTuple(_) => false
    case Nested(fields) => Supported(fields)
    case Wrapper(_) => false
  }

  /** Every id is a live item of the store. */
  predicate Live(store: map<Id, Value>, ids: seq<Id>)
  {
    forall id :: id in ids ==> id in store
  }

  predicate Distinct(ids: seq<Id>)
  {
    forall i, j :: 0 <= i < j < |ids| ==> ids[i] != ids[j]
  }

  lemma DistinctSplit(a: seq<Id>, b: seq<Id>)
    requires Distinct(a + b)
    ensures Distinct(a) && Distinct(b)
    ensures forall id :: id in a ==> id !in b
  {
    forall i, j | 0 <= i < j < |a| ensures a[i] != a[j] {
      assert (a + b)[i] == a[i] && (a + b)[j] == a[j];
    }
    forall i, j | 0 <= i < j < |b| ensures b[i] != b[j] {
      assert (a + b)[|a| + i] == b[i] && (a + b)[|a| + j] == b[j];
    }
    forall i, j | 0 <= i < |a| && 0 <= j < |b| ensures a[i] != b[j] {
      assert (a + b)[i] == a[i] && (a + b)[|a| + j] == b[j];
    }
  }

  // ---------------------------------------------------------------------
  // dpg_uuid

  /** `count` consecutive ids from `first`. */
  function IdRange(first: Id, count: nat): (r: seq<Id>)
    ensures |r| == count
  {
    seq(count, i => first + i)
  }

  /** What `dpg_uuid` builds when the generator stands at `next`: the
      instance and the generator's next id afterwards. */
  function Build(fs: seq<Field>, next: Id): (seq<Tree<Id>>, Id)
  {
    if fs == [] then ([], next)
    else
      var (front, mid) := Build(fs[..|fs| - 1], next);
      var (last, after) := BuildField(fs[|fs| - 1], mid);
      (front + [last], after)
  }

  function BuildField(f: Field, next: Id): (Tree<Id>, Id)
  {
    match f.ty
    case Leaf(_) => (Scalar(next), next + 1)
    case RawTuple(slots) => (Group(seq(|slots|, i => Scalar(next + i))), next + |slots|)
    case Nested(fields) => var (items, after) := Build(fields, next); (Group(items), after)
    case Wrapper(fields) => var (items, after) := Build(fields, next); (Group(items), after)
  }

  /** The instance `dpg_uuid` builds has the schema's shape, one fresh id
      per widget, handed out in order. */
  lemma {:induction false} BuildShape(fs: seq<Field>, next: Id)
    ensures Conforms(Build(fs, next).0, fs)
    ensures Leaves(Build(fs, next).0) == IdRange(next, LeafCount(fs))
    ensures Build(fs, next).1 == next + LeafCount(fs)
    decreases fs
  {
    if fs != [] {
      var n := |fs|;
      var (front, mid) := Build(fs[..n - 1], next);
      var (last, after) := BuildField(fs[n - 1], mid);
      BuildShape(fs[..n - 1], next);
      BuildFieldShape(fs[n - 1], mid);
      var ts := front + [last];
      assert ts[..n - 1] == front;
      assert Leaves(ts) == Leaves(front) + TreeLeaves(last);
      assert IdRange(next, LeafCount(fs[..n - 1])) + IdRange(mid, FieldLeafCount(fs[n - 1])) == IdRange(next, LeafCount(fs));
    }
  }

  lemma {:induction false} BuildFieldShape(f: Field, next: Id)
    ensures FieldConforms(BuildField(f, next).0, f)
    ensures TreeLeaves(BuildField(f, next).0) == IdRange(next, FieldLeafCount(f))
    ensures BuildField(f, next).1 == next + FieldLeafCount(f)
    decreases f
  {
    match f.ty
    case Leaf(_) =>
    case RawTuple(slots) =>
      var items := seq(|slots|, i => Scalar(next + i));
      RangeLeaves(items, next);
    case Nested(fields) =>
      BuildShape(fields, next);
    case Wrapper(fields) =>
      BuildShape(fields, next);
  }

  lemma {:induction false} RangeLeaves(items: seq<Tree<Id>>, next: Id)
    requires forall i :: 0 <= i < |items| ==> items[i] == Scalar(next + i)
    ensures Leaves(items) == IdRange(next, |items|)
    decreases |items|
  {
    if items != [] {
      var n := |items|;
      RangeLeaves(items[..n - 1], next);
      assert IdRange(next, n - 1) + [next + n - 1] == IdRange(next, n);
    }
  }

  /** All widget ids of a `dpg_uuid` instance are pairwise distinct and
      none was handed out before the call. */
  lemma BuildFresh(fs: seq<Field>, next: Id)
    ensures Distinct(Leaves(Build(fs, next).0))
    ensures forall id :: id in Leaves(Build(fs, next).0) ==> next <= id < Build(fs, next).1
  {
    BuildShape(fs, next);
  }

  /** `dpg_uuid(cls)()`: walk the fields in order, taking one id from the
      generator per widget. */
  method Uuid(reg: Registry, fs: seq<Field>) returns (values: seq<Tree<Id>>)
    modifies reg
    ensures (values, reg.nextUuid) == Build(fs, old(reg.nextUuid))
    ensures reg.values == old(reg.values)
    decreases fs
  {
    values := [];
    for i := 0 to |fs|
      invariant (values, reg.nextUuid) == Build(fs[..i], old(reg.nextUuid))
      invariant reg.values == old(reg.values)
    {
      assert fs[..i + 1][..i] == fs[..i];
      var value := UuidField(reg, fs[i]);
      values := values + [value];
    }
    assert fs[..|fs|] == fs;
  }

  method UuidField(reg: Registry, f: Field) returns (value: Tree<Id>)
    modifies reg
    ensures (value, reg.nextUuid) == BuildField(f, old(reg.nextUuid))
    ensures reg.values == old(reg.values)
    decreases f
  {
    match f.ty
    case Leaf(_) =>
      var id := reg.GenerateUuid();
      value := Scalar(id);
    case RawTuple(slots) =>
      var ids: seq<Tree<Id>> := [];
      for j := 0 to |slots|
        invariant ids == seq(j, i => Scalar(old(reg.nextUuid) + i))
        invariant reg.nextUuid == old(reg.nextUuid) + j
        invariant reg.values == old(reg.values)
      {
        var id := reg.GenerateUuid();
        ids := ids + [Scalar(id)];
      }
      value := Group(ids);
    case Nested(fields) =>
      var items := Uuid(reg, fields);
      value := Group(items);
    case Wrapper(fields) =>
      var items := Uuid(reg, fields);
      value := Group(items);
  }

  // ---------------------------------------------------------------------
  // dpg_get_values

  /** What `dpg_get_values` reads: each leaf's stored value passed through
      its annotation's constructor `coerce`; the first unreadable field
      decides the error. */
  function ReadFields(store: map<Id, Value>, fs: seq<Field>, inst: seq<Tree<Id>>, coerce: (string, Value) -> Value): Result<seq<Tree<Value>>>
    decreases fs
  {
    if |inst| != |fs| then Err(ShapeMismatch)
    else if fs == [] then Ok([])
    else match ReadFields(store, fs[..|fs| - 1], inst[..|inst| - 1], coerce)
      case Err(e) => Err(e)
      case Ok(front) =>
        match ReadField(store, fs[|fs| - 1], inst[|inst| - 1], coerce)
        case Err(e) => Err(e)
        case Ok(last) => Ok(front + [last])
  }

  function ReadField(store: map<Id, Value>, f: Field, t: Tree<Id>, coerce: (string, Value) -> Value): Result<Tree<Value>>
    decreases f
  {
    match f.ty
    case Leaf(typeName) =>
      if !t.Scalar? then Err(ShapeMismatch)
      else if t.value !in store then Err(UnknownItem(t.value))
      else Ok(Scalar(coerce(typeName, store[t.value])))
    case RawTuple(_) => Err(UnsupportedField(f.name))
    case Nested(fields) =>
      if !t.Group? then Err(ShapeMismatch)
      else (match ReadFields(store, fields, t.items, coerce)
        case Err(e) => Err(e)
        case Ok(items) => Ok(Group(items)))
    case Wrapper(_) => Err(UnsupportedField(f.name))
  }

  /** The coercion that keeps a value as stored. */
  function Uncoerced(typeName: string, v: Value): Value
  {
    v
  }

  /** A conforming instance can be read exactly when its fields are
      supported and all its widgets are live; what is read has the shape. */
  lemma {:induction false} ReadOk(store: map<Id, Value>, fs: seq<Field>, inst: seq<Tree<Id>>, coerce: (string, Value) -> Value)
    requires Conforms(inst, fs)
    ensures ReadFields(store, fs, inst, coerce).Ok? <==> Supported(fs) && Live(store, Leaves(inst))
    ensures ReadFields(store, fs, inst, coerce).Ok? ==> Conforms(ReadFields(store, fs, inst, coerce).value, fs)
    decreases fs
  {
    if fs != [] {
      var n := |fs|;
      ReadOk(store, fs[..n - 1], inst[..n - 1], coerce);
      ReadFieldOk(store, fs[n - 1], inst[n - 1], coerce);
      assert Leaves(inst) == Leaves(inst[..n - 1]) + TreeLeaves(inst[n - 1]);
      var r := ReadFields(store, fs, inst, coerce);
      if r.Ok? {
        var front := ReadFields(store, fs[..n - 1], inst[..n - 1], coerce).value;
        assert (front + [r.value[n - 1]])[..n - 1] == front;
      }
    }
  }

  lemma {:induction false} ReadFieldOk(store: map<Id, Value>, f: Field, t: Tree<Id>, coerce: (string, Value) -> Value)
    requires FieldConforms(t, f)
    ensures ReadField(store, f, t, coerce).Ok? <==> FieldSupported(f) && Live(store, TreeLeaves(t))
    ensures ReadField(store, f, t, coerce).Ok? ==> FieldConforms(ReadField(store, f, t, coerce).value, f)
    decreases f
  {
    match f.ty
    case Leaf(_) =>
    case RawTuple(_) =>
    case Nested(fields) => ReadOk(store, fields, t.items, coerce);
    case Wrapper(_) =>
  }

  /** Once a prefix of the fields fails, reading fails with that error. */
  lemma {:induction false} ReadFirstError(store: map<Id, Value>, fs: seq<Field>, inst: seq<Tree<Id>>, coerce: (string, Value) -> Value, j: nat)
    requires |inst| == |fs| && j <= |fs|
    requires ReadFields(store, fs[..j], inst[..j], coerce).Err?
    ensures ReadFields(store, fs, inst, coerce) == ReadFields(store, fs[..j], inst[..j], coerce)
    decreases |fs|
  {
    if j < |fs| {
      var n := |fs|;
      var fs', inst' := fs[..n - 1], inst[..n - 1];
      assert fs'[..j] == fs[..j] && inst'[..j] == inst[..j];
      ReadFirstError(store, fs', inst', coerce, j);
      assert fs'[..|fs'|] == fs' && inst'[..|inst'|] == inst';
    } else {
      assert fs[..j] == fs && inst[..j] == inst;
    }
  }

  /** `dpg_get_values`: read every field in order; the store is not changed. */
  method GetValues(reg: Registry, fs: seq<Field>, inst: seq<Tree<Id>>, coerce: (string, Value) -> Value)
    returns (r: Result<seq<Tree<Value>>>)
    ensures r == ReadFields(reg.values, fs, inst, coerce)
    decreases fs
  {
    if |inst| != |fs| {
      return Err(ShapeMismatch);
    }
    var values: seq<Tree<Value>> := [];
    for i := 0 to |fs|
      invariant ReadFields(reg.values, fs[..i], inst[..i], coerce) == Ok(values)
    {
      assert fs[..i + 1][..i] == fs[..i] && inst[..i + 1][..i] == inst[..i];
      var value := GetField(reg, fs[i], inst[i], coerce);
      if value.Err? {
        ReadFirstError(reg.values, fs, inst, coerce, i + 1);
        return Err(value.error);
      }
      values := values + [value.value];
    }
    assert fs[..|fs|] == fs && inst[..|inst|] == inst;
    r := Ok(values);
  }

  method GetField(reg: Registry, f: Field, t: Tree<Id>, coerce: (string, Value) -> Value) returns (r: Result<Tree<Value>>)
    ensures r == ReadField(reg.values, f, t, coerce)
    decreases f
  {
    match f.ty
    case Leaf(typeName) =>
      if !t.Scalar? {
        return Err(ShapeMismatch);
      }
      var v := GetValue(reg.values, t.value);
      if v.Err? {
        return Err(v.error);
      }
      r := Ok(Scalar(coerce(typeName, v.value)));
    case RawTuple(_) =>
      r := Err(UnsupportedField(f.name));
    case Nested(fields) =>
      if !t.Group? {
        return Err(ShapeMismatch);
      }
      var items := GetValues(reg, fields, t.items, coerce);
      if items.Err? {
        return Err(items.error);
      }
      r := Ok(Group(items.value));
    case Wrapper(_) =>
      r := Err(UnsupportedField(f.name));
  }

  // ---------------------------------------------------------------------
  // dpg_set_values

  /** What `dpg_set_values` does to the store: each leaf's value is set at
      its widget, in order; the first failing field stops the walk, leaving
      the writes already made. */
  function WriteFields(store: map<Id, Value>, fs: seq<Field>, inst: seq<Tree<Id>>, vals: seq<Tree<Value>>): (map<Id, Value>, Result<()>)
    decreases fs
  {
    if |inst| != |fs| || |vals| != |fs| then (store, Err(ShapeMismatch))
    else if fs == [] then (store, Ok(()))
    else
      var (mid, r) := WriteFields(store, fs[..|fs| - 1], inst[..|inst| - 1], vals[..|vals| - 1]);
      if r.Err? then (mid, r)
      else WriteField(mid, fs[|fs| - 1], inst[|inst| - 1], vals[|vals| - 1])
  }

  function WriteField(store: map<Id, Value>, f: Field, t: Tree<Id>, v: Tree<Value>): (map<Id, Value>, Result<()>)
    decreases f
  {
    match f.ty
    case Leaf(_) =>
      if !t.Scalar? || !v.Scalar? then (store, Err(ShapeMismatch))
      else if t.value !in store then (store, Err(UnknownItem(t.value)))
      else (store[t.value := v.value], Ok(()))
    case RawTuple(_) => (store, Err(UnsupportedField(f.name)))
    case Nested(fields) =>
      if !t.Group? || !v.Group? then (store, Err(ShapeMismatch))
      else WriteFields(store, fields, t.items, v.items)
    case Wrapper(_) => (store, Err(UnsupportedField(f.name)))
  }

  /** Setting values creates no item and changes only the instance's widgets. */
  lemma {:induction false} WriteFrame(store: map<Id, Value>, fs: seq<Field>, inst: seq<Tree<Id>>, vals: seq<Tree<Value>>)
    ensures WriteFields(store, fs, inst, vals).0.Keys == store.Keys
    ensures forall id :: id in store && id !in Leaves(inst) ==> WriteFields(store, fs, inst, vals).0[id] == store[id]
    decreases fs
  {
    if |inst| == |fs| && |vals| == |fs| && fs != [] {
      var n := |fs|;
      WriteFrame(store, fs[..n - 1], inst[..n - 1], vals[..n - 1]);
      var (mid, r) := WriteFields(store, fs[..n - 1], inst[..n - 1], vals[..n - 1]);
      if r.Ok? {
        WriteFieldFrame(mid, fs[n - 1], inst[n - 1], vals[n - 1]);
      }
      assert Leaves(inst) == Leaves(inst[..n - 1]) + TreeLeaves(inst[n - 1]);
    }
  }

  lemma {:induction false} WriteFieldFrame(store: map<Id, Value>, f: Field, t: Tree<Id>, v: Tree<Value>)
    ensures WriteField(store, f, t, v).0.Keys == store.Keys
    ensures forall id :: id in store && id !in TreeLeaves(t) ==> WriteField(store, f, t, v).0[id] == store[id]
    decreases f
  {
    match f.ty
    case Leaf(_) =>
    case RawTuple(_) =>
    case Nested(fields) =>
      if t.Group? && v.Group? {
        WriteFrame(store, fields, t.items, v.items);
      }
    case Wrapper(_) =>
  }

  /** Setting conforming values succeeds exactly when the fields are
      supported and all the instance's widgets are live. */
  lemma {:induction false} WriteOk(store: map<Id, Value>, fs: seq<Field>, inst: seq<Tree<Id>>, vals: seq<Tree<Value>>)
    requires Conforms(inst, fs) && Conforms(vals, fs)
    ensures WriteFields(store, fs, inst, vals).1.Ok? <==> Supported(fs) && Live(store, Leaves(inst))
    decreases fs
  {
    if fs != [] {
      var n := |fs|;
      WriteOk(store, fs[..n - 1], inst[..n - 1], vals[..n - 1]);
      WriteFrame(store, fs[..n - 1], inst[..n - 1], vals[..n - 1]);
      var (mid, r) := WriteFields(store, fs[..n - 1], inst[..n - 1], vals[..n - 1]);
      WriteFieldOk(mid, fs[n - 1], inst[n - 1], vals[n - 1]);
      assert Leaves(inst) == Leaves(inst[..n - 1]) + TreeLeaves(inst[n - 1]);
    }
  }

  lemma {:induction false} WriteFieldOk(store: map<Id, Value>, f: Field, t: Tree<Id>, v: Tree<Value>)
    requires FieldConforms(t, f) && FieldConforms(v, f)
    ensures WriteField(store, f, t, v).1.Ok? <==> FieldSupported(f) && Live(store, TreeLeaves(t))
    decreases f
  {
    match f.ty
    case Leaf(_) =>
    case RawTuple(_) =>
    case Nested(fields) => WriteOk(store, fields, t.items, v.items);
    case Wrapper(_) =>
  }

  /** Once a prefix of the fields fails, setting stops there. */
  lemma {:induction false} WriteFirstError(store: map<Id, Value>, fs: seq<Field>, inst: seq<Tree<Id>>, vals: seq<Tree<Value>>, j: nat)
    requires |inst| == |fs| && |vals| == |fs| && j <= |fs|
    requires WriteFields(store, fs[..j], inst[..j], vals[..j]).1.Err?
    ensures WriteFields(store, fs, inst, vals) == WriteFields(store, fs[..j], inst[..j], vals[..j])
    decreases |fs|
  {
    if j < |fs| {
      var n := |fs|;
      var fs', inst', vals' := fs[..n - 1], inst[..n - 1], vals[..n - 1];
      assert fs'[..j] == fs[..j] && inst'[..j] == inst[..j] && vals'[..j] == vals[..j];
      WriteFirstError(store, fs', inst', vals', j);
      assert fs'[..|fs'|] == fs' && inst'[..|inst'|] == inst' && vals'[..|vals'|] == vals';
    } else {
      assert fs[..j] == fs && inst[..j] == inst && vals[..j] == vals;
    }
  }

  /** `dpg_set_values`: set every field's value in order. */
  method SetValues(reg: Registry, fs: seq<Field>, inst: seq<Tree<Id>>, vals: seq<Tree<Value>>) returns (r: Result<()>)
    modifies reg`values
    ensures (reg.values, r) == WriteFields(old(reg.values), fs, inst, vals)
    decreases fs
  {
    if |inst| != |fs| || |vals| != |fs| {
      return Err(ShapeMismatch);
    }
    for i := 0 to |fs|
      invariant WriteFields(old(reg.values), fs[..i], inst[..i], vals[..i]) == (reg.values, Ok(()))
    {
      assert fs[..i + 1][..i] == fs[..i] && inst[..i + 1][..i] == inst[..i] && vals[..i + 1][..i] == vals[..i];
      ghost var before := reg.values;
      r := SetField(reg, fs[i], inst[i], vals[i]);
      assert WriteFields(old(reg.values), fs[..i + 1], inst[..i + 1], vals[..i + 1]) == WriteField(before, fs[i], inst[i], vals[i]);
      if r.Err? {
        WriteFirstError(old(reg.values), fs, inst, vals, i + 1);
        return;
      }
      assert r.value == ();
    }
    assert fs[..|fs|] == fs && inst[..|inst|] == inst && vals[..|vals|] == vals;
    r := Ok(());
  }

  method SetField(reg: Registry, f: Field, t: Tree<Id>, v: Tree<Value>) returns (r: Result<()>)
    modifies reg`values
    ensures (reg.values, r) == WriteField(old(reg.values), f, t, v)
    decreases f
  {
    match f.ty
    case Leaf(_) =>
      if !t.Scalar? || !v.Scalar? {
        return Err(ShapeMismatch);
      }
      r := reg.SetValue(t.value, v.value);
    case RawTuple(_) =>
      r := Err(UnsupportedField(f.name));
    case Nested(fields) =>
      if !t.Group? || !v.Group? {
        return Err(ShapeMismatch);
      }
      r := SetValues(reg, fields, t.items, v.items);
    case Wrapper(_) =>
      r := Err(UnsupportedField(f.name));
  }

  // ---------------------------------------------------------------------
  // Round trips

  /** Every leaf value is a fixed point of its annotation's coercion. */
  predicate Settled(fs: seq<Field>, vals: seq<Tree<Value>>, coerce: (string, Value) -> Value)
  {
    |vals| == |fs| && (fs == [] || (Settled(fs[..|fs| - 1], vals[..|vals| - 1], coerce) && FieldSettled(fs[|fs| - 1], vals[|vals| - 1], coerce)))
  }

  predicate FieldSettled(f: Field, v: Tree<Value>, coerce: (string, Value) -> Value)
  {
    match f.ty
    case Leaf(typeName) => v.Scalar? && coerce(typeName, v.value) == v.value
    case RawTuple(_) => true
    case Nested(fields) => v.Group? && Settled(fields, v.items, coerce)
    case Wrapper(_) => true
  }

  /** Reading depends only on the instance's own widgets. */
  lemma {:induction false} ReadLocal(s: map<Id, Value>, s': map<Id, Value>, fs: seq<Field>, inst: seq<Tree<Id>>, coerce: (string, Value) -> Value)
    requires forall id :: id in Leaves(inst) ==> (id in s <==> id in s') && (id in s ==> s[id] == s'[id])
    ensures ReadFields(s, fs, inst, coerce) == ReadFields(s', fs, inst, coerce)
    decreases fs
  {
    if |inst| == |fs| && fs != [] {
      var n := |fs|;
      assert Leaves(inst) == Leaves(inst[..n - 1]) + TreeLeaves(inst[n - 1]);
      ReadLocal(s, s', fs[..n - 1], inst[..n - 1], coerce);
      ReadFieldLocal(s, s', fs[n - 1], inst[n - 1], coerce);
    }
  }

  lemma {:induction false} ReadFieldLocal(s: map<Id, Value>, s': map<Id, Value>, f: Field, t: Tree<Id>, coerce: (string, Value) -> Value)
    requires forall id :: id in TreeLeaves(t) ==> (id in s <==> id in s') && (id in s ==> s[id] == s'[id])
    ensures ReadField(s, f, t, coerce) == ReadField(s', f, t, coerce)
    decreases f
  {
    match f.ty
    case Leaf(typeName) =>
      if t.Scalar? {
        var id := t.value;
        assert TreeLeaves(t) == [id];
        assert id in TreeLeaves(t);
        if id in s {
          assert ReadField(s, f, t, coerce) == Ok(Scalar(coerce(typeName, s[id])));
          assert ReadField(s', f, t, coerce) == Ok(Scalar(coerce(typeName, s'[id])));
        }
      }
    case RawTuple(_) =>
    case Nested(fields) =>
      if t.Group? {
        ReadLocal(s, s', fields, t.items, coerce);
      }
    case Wrapper(_) =>
  }

  /** `dpg_get_values` after `dpg_set_values(inst, vals)` gives `vals` back,
      when the instance's widgets are live and distinct and each value is
      already of its annotated type. */
  lemma {:induction false} WriteThenRead(store: map<Id, Value>, fs: seq<Field>, inst: seq<Tree<Id>>, vals: seq<Tree<Value>>, coerce: (string, Value) -> Value)
    requires Conforms(inst, fs) && Conforms(vals, fs) && Supported(fs)
    requires Live(store, Leaves(inst)) && Distinct(Leaves(inst))
    requires Settled(fs, vals, coerce)
    ensures WriteFields(store, fs, inst, vals).1 == Ok(())
    ensures ReadFields(WriteFields(store, fs, inst, vals).0, fs, inst, coerce) == Ok(vals)
    decreases fs
  {
    if fs != [] {
      var n := |fs|;
      var front := inst[..n - 1];
      assert Leaves(inst) == Leaves(front) + TreeLeaves(inst[n - 1]);
      DistinctSplit(Leaves(front), TreeLeaves(inst[n - 1]));
      WriteThenRead(store, fs[..n - 1], front, vals[..n - 1], coerce);
      WriteFrame(store, fs[..n - 1], front, vals[..n - 1]);
      var mid := WriteFields(store, fs[..n - 1], front, vals[..n - 1]).0;
      WriteFieldThenRead(mid, fs[n - 1], inst[n - 1], vals[n - 1], coerce);
      WriteFieldFrame(mid, fs[n - 1], inst[n - 1], vals[n - 1]);
      var after := WriteField(mid, fs[n - 1], inst[n - 1], vals[n - 1]).0;
      ReadLocal(mid, after, fs[..n - 1], front, coerce);
      assert vals[..n - 1] + [vals[n - 1]] == vals;
    }
  }

  lemma {:induction false} WriteFieldThenRead(store: map<Id, Value>, f: Field, t: Tree<Id>, v: Tree<Value>, coerce: (string, Value) -> Value)
    requires FieldConforms(t, f) && FieldConforms(v, f) && FieldSupported(f)
    requires Live(store, TreeLeaves(t)) && Distinct(TreeLeaves(t))
    requires FieldSettled(f, v, coerce)
    ensures WriteField(store, f, t, v).1 == Ok(())
    ensures ReadField(WriteField(store, f, t, v).0, f, t, coerce) == Ok(v)
    decreases f
  {
    match f.ty
    case Leaf(_) =>
    case Nested(fields) =>
      WriteThenRead(store, fields, t.items, v.items, coerce);
  }

  /** When the stored values are already of their annotated types,
      `dpg_get_values` gives them as stored, and setting them back with
      `dpg_set_values` changes nothing. */
  lemma {:induction false} ReadThenWrite(store: map<Id, Value>, fs: seq<Field>, inst: seq<Tree<Id>>, coerce: (string, Value) -> Value, stored: seq<Tree<Value>>)
    requires ReadFields(store, fs, inst, Uncoerced) == Ok(stored)
    requires Settled(fs, stored, coerce)
    ensures ReadFields(store, fs, inst, coerce) == Ok(stored)
    ensures WriteFields(store, fs, inst, stored) == (store, Ok(()))
    decreases fs
  {
    if fs != [] {
      var n := |fs|;
      var front := ReadFields(store, fs[..n - 1], inst[..n - 1], Uncoerced).value;
      var last := ReadField(store, fs[n - 1], inst[n - 1], Uncoerced).value;
      assert stored == front + [last];
      assert stored[..n - 1] == front;
      ReadThenWrite(store, fs[..n - 1], inst[..n - 1], coerce, front);
      ReadFieldThenWrite(store, fs[n - 1], inst[n - 1], coerce, last);
    }
  }

  lemma {:induction false} ReadFieldThenWrite(store: map<Id, Value>, f: Field, t: Tree<Id>, coerce: (string, Value) -> Value, stored: Tree<Value>)
    requires ReadField(store, f, t, Uncoerced) == Ok(stored)
    requires FieldSettled(f, stored, coerce)
    ensures ReadField(store, f, t, coerce) == Ok(stored)
    ensures WriteField(store, f, t, stored) == (store, Ok(()))
    decreases f
  {
    match f.ty
    case Leaf(_) =>
      assert store[t.value := stored.value] == store;
    case Nested(fields) =>
      ReadThenWrite(store, fields, t.items, coerce, stored.items);
  }

  /** The instance `dpg_uuid` builds supports the set-then-get round trip:
      its ids are distinct by construction. */
  lemma FreshRoundTrip(store: map<Id, Value>, fs: seq<Field>, next: Id, vals: seq<Tree<Value>>, coerce: (string, Value) -> Value)
    requires Supported(fs) && Conforms(vals, fs) && Settled(fs, vals, coerce)
    requires Live(store, Leaves(Build(fs, next).0))
    ensures ReadFields(WriteFields(store, fs, Build(fs, next).0, vals).0, fs, Build(fs, next).0, coerce) == Ok(vals)
  {
    BuildShape(fs, next);
    BuildFresh(fs, next);
    WriteThenRead(store, fs, Build(fs, next).0, vals, coerce);
  }
}
