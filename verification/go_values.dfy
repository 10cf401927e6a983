/** Go values as seen through reflection, made explicit: a struct is a
    sequence of fields, each field carries its name, its tag map, whether it
    is exported, and its value. Anything that is not a struct is an opaque
    leaf with a type and a datum. */
module GoValues {
  import opened Wrappers

  /** reflect.Kind. */
  datatype Kind =
    | Invalid | Bool
    | Int | Int8 | Int16 | Int32 | Int64
    | Uint | Uint8 | Uint16 | Uint32 | Uint64 | Uintptr
    | Float32 | Float64 | Complex64 | Complex128
    | Array | Chan | Func | Interface | Map | Ptr | Slice | String | Struct
    | UnsafePointer

  /** The text reflect.Kind.String() prints for each kind. */
  function KindName(k: Kind): string {
    match k
    case Invalid => "invalid"
    case Bool => "bool"
    case Int => "int"
    case Int8 => "int8"
    case Int16 => "int16"
    case Int32 => "int32"
    case Int64 => "int64"
    case Uint => "uint"
    case Uint8 => "uint8"
    case Uint16 => "uint16"
    case Uint32 => "uint32"
    case Uint64 => "uint64"
    case Uintptr => "uintptr"
    case Float32 => "float32"
    case Float64 => "float64"
    case Complex64 => "complex64"
    case Complex128 => "complex128"
    case Array => "array"
    case Chan => "chan"
    case Func => "func"
    case Interface => "interface"
    case Map => "map"
    case Ptr => "ptr"
    case Slice => "slice"
    case String => "string"
    case Struct => "struct"
    case UnsafePointer => "unsafe.Pointer"
  }

  /** Kinds a non-struct value can have. */
  type LeafKind = k: Kind | k != Struct && k != Invalid witness Bool

  /** The static type of a non-struct value: the predeclared type (or an
      unnamed type literal such as `[]byte`) of a kind, `time.Duration`, or a
      user-defined named type such as `type Secret string`. */
  datatype LeafType =
    | Builtin(kind: LeafKind)
    | Duration
    | Defined(typeName: string, underlying: LeafKind)
  {
    function Kind(): LeafKind {
      match this
      case Builtin(k) => k
      case Duration => Int64
      case Defined(_, k) => k
    }
  }

  /** The contents of a non-struct value. Maps, slices, pointers, channels,
      funcs, arrays, interfaces and complex numbers are opaque handles, copied
      by value; handle 0 is their zero value. */
  datatype Datum =
    | BoolV(b: bool)
    | IntV(i: int)
    | FloatV(bits: nat)
    | StringV(s: string)
    | Ref(handle: nat)

  /** A struct tag, already split into its `key:"value"` pairs. */
  type Tags = map<string, string>

  /** A struct field. `embedded` marks an anonymous field, whose name is its
      type's name. */
  datatype Field = Field(name: string, tags: Tags, exported: bool, embedded: bool, val: Value)

  datatype Value =
    | StructValue(fields: seq<Field>)
    | Scalar(ty: LeafType, datum: Datum)
  {
    function Kind(): Kind {
      match this
      case StructValue(_) => Struct
      case Scalar(t, _) => t.Kind()
    }
  }

  /** A value of the predeclared `string` type. */
  function Str(s: string): Value {
    Scalar(Builtin(String), StringV(s))
  }

  /** StructTag.Lookup. */
  function Lookup(tags: Tags, key: string): Option<string> {
    if key in tags then Some(tags[key]) else None
  }

  /** StructTag.Get: an absent key reads as the empty string. */
  function Get(tags: Tags, key: string): string {
    match Lookup(tags, key)
    case Some(s) => s
    case None => ""
  }

  // ---------------------------------------------------------------------
  // Types and zero values
  // ---------------------------------------------------------------------

  datatype FieldType = FieldType(name: string, tags: Tags, exported: bool, embedded: bool, ty: Type)

  datatype Type = StructType(fields: seq<FieldType>) | LeafT(leaf: LeafType)

  /** The static type of a value: for a struct, its field descriptors. */
  function TypeOf(v: Value): Type {
    match v
    case Scalar(t, _) => LeafT(t)
    case StructValue(fs) =>
      StructType(seq(|fs|, i requires 0 <= i < |fs| =>
        FieldType(fs[i].name, fs[i].tags, fs[i].exported, fs[i].embedded, TypeOf(fs[i].val))))
  }

  function ZeroDatum(k: LeafKind): Datum {
    match k
    case Bool => BoolV(false)
    case Int | Int8 | Int16 | Int32 | Int64 => IntV(0)
    case Uint | Uint8 | Uint16 | Uint32 | Uint64 | Uintptr => IntV(0)
    case Float32 | Float64 => FloatV(0)
    case String => StringV("")
    case Complex64 | Complex128 | Array | Chan | Func | Interface | Map | Ptr | Slice | UnsafePointer => Ref(0)
  }

  /** The zero value of `v`'s type: every leaf below it holds its kind's zero. */
  predicate IsZero(v: Value) {
    match v
    case Scalar(t, d) => d == ZeroDatum(t.Kind())
    case StructValue(fs) => forall i :: 0 <= i < |fs| ==> IsZero(fs[i].val)
  }

  /** The zero value of the type of `v`, what reflect.New allocates. */
  function Zero(v: Value): (z: Value)
    ensures TypeOf(z) == TypeOf(v)
    ensures IsZero(z)
  {
    match v
    case Scalar(t, _) => Scalar(t, ZeroDatum(t.Kind()))
    case StructValue(fs) =>
      var z := StructValue(seq(|fs|, i requires 0 <= i < |fs| => fs[i].(val := Zero(fs[i].val))));
      assert TypeOf(z).fields == TypeOf(v).fields by {
        forall i | 0 <= i < |fs| ensures TypeOf(z).fields[i] == TypeOf(v).fields[i] { }
      }
      z
  }

  /** A value is the zero of its type exactly when it equals `Zero` of itself. */
  lemma {:induction false} ZeroIsCanonical(v: Value)
    ensures IsZero(v) <==> Zero(v) == v
  {
    match v
    case Scalar(_, _) =>
    case StructValue(fs) =>
      var z := Zero(v);
      forall i | 0 <= i < |fs|
        ensures IsZero(fs[i].val) <==> Zero(fs[i].val) == fs[i].val
      {
        ZeroIsCanonical(fs[i].val);
      }
      if IsZero(v) {
        assert z.fields == fs;
      } else {
        var i :| 0 <= i < |fs| && !IsZero(fs[i].val);
        assert z.fields[i].val != fs[i].val;
      }
  }

  /** The zero value depends only on the type. */
  lemma {:induction false} ZeroDependsOnlyOnType(a: Value, b: Value)
    requires TypeOf(a) == TypeOf(b)
    ensures Zero(a) == Zero(b)
  {
    match a
    case Scalar(_, _) =>
    case StructValue(fs) =>
      var gs := b.fields;
      assert |TypeOf(a).fields| == |fs| && |TypeOf(b).fields| == |gs|;
      forall i | 0 <= i < |fs|
        ensures Zero(a).fields[i] == Zero(b).fields[i]
      {
        assert TypeOf(a).fields[i] == TypeOf(b).fields[i];
        ZeroDependsOnlyOnType(fs[i].val, gs[i].val);
      }
  }

  // ---------------------------------------------------------------------
  // Well-typed data
  // ---------------------------------------------------------------------

  /** The datum a leaf of kind `k` can hold. */
  predicate DatumFits(d: Datum, k: LeafKind) {
    match k
    case Bool => d.BoolV?
    case Int | Int8 | Int16 | Int32 | Int64 => d.IntV?
    case Uint | Uint8 | Uint16 | Uint32 | Uint64 | Uintptr => d.IntV? && d.i >= 0
    case Float32 | Float64 => d.FloatV?
    case String => d.StringV?
    case Complex64 | Complex128 | Array | Chan | Func | Interface | Map | Ptr | Slice | UnsafePointer => d.Ref?
  }

  predicate WellTyped(v: Value) {
    match v
    case Scalar(t, d) => DatumFits(d, t.Kind())
    case StructValue(fs) => forall i :: 0 <= i < |fs| ==> WellTyped(fs[i].val)
  }

  // ---------------------------------------------------------------------
  // Locations inside a struct (the pointers reflect's Addr hands out)
  // ---------------------------------------------------------------------

  /** The value reached by following field indices `loc` from `v`. */
  function ValueAt(v: Value, loc: seq<nat>): (r: Option<Value>)
    ensures loc == [] ==> r == Some(v)
    ensures v.Scalar? && loc != [] ==> r == None
  {
    if loc == [] then Some(v)
    else match v
      case Scalar(_, _) => None
      case StructValue(fs) => if loc[0] < |fs| then ValueAt(fs[loc[0]].val, loc[1..]) else None
  }

  /** `loc` names a non-struct field of `v`. */
  predicate IsLeafAt(v: Value, loc: seq<nat>) {
    ValueAt(v, loc).Some? && ValueAt(v, loc).value.Scalar?
  }

  /** Store `d` into the leaf at `loc`, what writing through a flag's
      pointer does. Out-of-shape locations leave `v` unchanged. */
  function UpdateAt(v: Value, loc: seq<nat>, d: Datum): (r: Value)
    ensures TypeOf(r) == TypeOf(v)
  {
    match v
    case Scalar(t, _) => if loc == [] then Scalar(t, d) else v
    case StructValue(fs) =>
      if loc == [] || loc[0] >= |fs| then v
      else
        var f := fs[loc[0]];
        var r := StructValue(fs[loc[0] := f.(val := UpdateAt(f.val, loc[1..], d))]);
        assert TypeOf(r).fields == TypeOf(v).fields by {
          forall i | 0 <= i < |fs| ensures TypeOf(r).fields[i] == TypeOf(v).fields[i] { }
        }
        r
  }

  /** Reading back a location just written gives the datum written. */
  lemma {:induction false} ReadAfterWrite(v: Value, loc: seq<nat>, d: Datum)
    requires IsLeafAt(v, loc)
    ensures ValueAt(UpdateAt(v, loc, d), loc) == Some(Scalar(ValueAt(v, loc).value.ty, d))
  {
    if loc != [] {
      ReadAfterWrite(v.fields[loc[0]].val, loc[1..], d);
    }
  }

  /** Writing one leaf leaves every other leaf unchanged. */
  lemma {:induction false} WriteFrame(v: Value, p: seq<nat>, q: seq<nat>, d: Datum)
    requires IsLeafAt(v, p) && IsLeafAt(v, q) && p != q
    ensures ValueAt(UpdateAt(v, p, d), q) == ValueAt(v, q)
  {
    if p == [] || q == [] {
      assert false;
    } else if p[0] != q[0] {
    } else {
      assert p == [p[0]] + p[1..] && q == [q[0]] + q[1..];
      WriteFrame(v.fields[p[0]].val, p[1..], q[1..], d);
    }
  }
}
