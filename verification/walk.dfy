/** addFlags: the walk that turns a configuration struct into an ordered
    list of flag declarations. */
module Walk {
  import opened Wrappers
  import opened GoValues
  import opened FlagSet

  const TagConf: string := "conf"
  const TagUsage: string := "usage"
  /** The `conf` tag value that drops a field and everything below it. */
  const Skip: string := "-"

  /** One call of fs.BoolVar / fs.IntVar / ...: name, type, default (the
      field's current value), usage, and the field the flag writes to. */
  datatype Decl = Decl(name: string, kind: FlagType, defValue: Datum, usage: string, loc: seq<nat>)

  /** The kinds addFlags's outer switch lets through to the type switch. */
  predicate KindGate(k: Kind) {
    k == Bool || k == Int64 || k == Float64 || k == Int || k == Uint || k == Uint64 || k == String
  }

  /** The inner type switch: only these exact types get a flag; a named type
      such as `type Secret string` passes the kind gate but matches no case. */
  function FlagTypeOf(t: LeafType): (r: Option<FlagType>)
    ensures r.Some? ==> KindGate(t.Kind()) && GoTypeOf(r.value) == t
    ensures t.Defined? ==> r.None?
    ensures r.Some? <==> t.Duration? || (t.Builtin? && KindGate(t.kind))
  {
    match t
    case Duration => Some(DurationFlag)
    case Defined(_, _) => None
    case Builtin(k) =>
      if k == Bool then Some(BoolFlag)
      else if k == Float64 then Some(Float64Flag)
      else if k == Int then Some(IntFlag)
      else if k == Int64 then Some(Int64Flag)
      else if k == String then Some(StringFlag)
      else if k == Uint then Some(UintFlag)
      else if k == Uint64 then Some(Uint64Flag)
      else None
  }

  /** The Go type whose pointer each flag constructor takes: `BoolVar` takes
      `*bool`, `DurationVar` takes `*time.Duration`, and so on. */
  function GoTypeOf(k: FlagType): LeafType {
    match k
    case BoolFlag => Builtin(Bool)
    case DurationFlag => Duration
    case Float64Flag => Builtin(Float64)
    case IntFlag => Builtin(Int)
    case Int64Flag => Builtin(Int64)
    case StringFlag => Builtin(String)
    case UintFlag => Builtin(Uint)
    case Uint64Flag => Builtin(Uint64)
  }

  /** The type switch picks, for a field of type `t`, exactly the flag
      constructor that takes a pointer to `t`. */
  lemma FlagTypeOfExactly(t: LeafType, k: FlagType)
    ensures FlagTypeOf(t) == Some(k) <==> t == GoTypeOf(k)
  {
    if t == GoTypeOf(k) {
      match k
      case BoolFlag =>
      case DurationFlag =>
      case Float64Flag =>
      case IntFlag =>
      case Int64Flag =>
      case StringFlag =>
      case UintFlag =>
      case Uint64Flag =>
    }
  }

  /** The field's own name part: its `conf` tag when non-empty, else its name. */
  function BaseName(f: Field): string {
    var conf := Get(f.tags, TagConf);
    if conf != "" then conf else f.name
  }

  /** A nested name is its parent's name, `-`, then its own. */
  function Qualify(prefix: string, name: string): (r: string)
    ensures prefix == "" ==> r == name
    ensures prefix != "" ==> |r| == |prefix| + 1 + |name| && r[..|prefix|] == prefix && r[|prefix|] == '-'
                             && r[|prefix| + 1..] == name
  {
    if prefix != "" then prefix + "-" + name else name
  }

  /** Whether the fields below field `f` can be set through reflection,
      given whether `f`'s siblings can. Reflection marks a value reached
      through an unexported field read-only, and its own fields inherit the
      mark; the mark of an unexported embedded field is not inherited. */
  function Inherit(settable: bool, f: Field): bool {
    settable && (f.exported || f.embedded)
  }

  /** addFlags(fs, prefix, v). `settable` is whether v's fields can be set
      through reflection, when they are exported. `loc` is where v sits in
      the root struct. */
  function AddFlags(prefix: string, v: Value, settable: bool, loc: seq<nat>): seq<Decl>
    decreases v
  {
    match v
    case Scalar(_, _) => []
    case StructValue(fs) => FieldFlags(prefix, fs, settable, loc, 0)
  }

  /** The loop of addFlags from field `i` on. */
  function FieldFlags(prefix: string, fs: seq<Field>, settable: bool, loc: seq<nat>, i: nat): seq<Decl>
    requires i <= |fs|
    decreases fs, |fs| - i
  {
    if i == |fs| then [] else OneField(prefix, fs, settable, loc, i) + FieldFlags(prefix, fs, settable, loc, i + 1)
  }

  /** One iteration of addFlags's loop: the declarations field `i` adds. */
  function OneField(prefix: string, fs: seq<Field>, settable: bool, loc: seq<nat>, i: nat): seq<Decl>
    requires i < |fs|
    decreases fs, 0
  {
    var f := fs[i];
    if Get(f.tags, TagConf) == Skip then []
    else
      var name := Qualify(prefix, BaseName(f));
      match f.val
      case StructValue(_) => AddFlags(name, f.val, Inherit(settable, f), loc + [i])
      case Scalar(t, d) =>
        if KindGate(t.Kind()) && settable && f.exported then
          match FlagTypeOf(t)
          case Some(k) => [Decl(name, k, d, Get(f.tags, TagUsage), loc + [i])]
          case None => []
        else []
  }

  // ---------------------------------------------------------------------
  // Reference: the declaration one path yields
  // ---------------------------------------------------------------------

  /** The flag the leaf at field path `p` below `v` gets, judged along that
      one path: every field on it is not skipped, the name grows by one
      component per field, settability is lost at the first unexported
      field that is not embedded, and the leaf itself must be exported and
      of a dispatchable type. */
  function DeclAt(prefix: string, v: Value, settable: bool, loc: seq<nat>, p: seq<nat>): Option<Decl>
    decreases p
  {
    if p == [] || !v.StructValue? || p[0] >= |v.fields| then None
    else
      var f := v.fields[p[0]];
      if Get(f.tags, TagConf) == Skip then None
      else
        var name := Qualify(prefix, BaseName(f));
        if |p| > 1 then DeclAt(name, f.val, Inherit(settable, f), loc + [p[0]], p[1..])
        else
          match f.val
          case StructValue(_) => None
          case Scalar(t, d) =>
            if KindGate(t.Kind()) && settable && f.exported && FlagTypeOf(t).Some? then
              Some(Decl(name, FlagTypeOf(t).value, d, Get(f.tags, TagUsage), loc + [p[0]]))
            else None
  }

  /** A declaration records the location its path names. */
  lemma {:induction false} DeclAtLocation(prefix: string, v: Value, settable: bool, loc: seq<nat>, p: seq<nat>)
    requires DeclAt(prefix, v, settable, loc, p).Some?
    ensures DeclAt(prefix, v, settable, loc, p).value.loc == loc + p
    decreases p
  {
    var f := v.fields[p[0]];
    var name := Qualify(prefix, BaseName(f));
    var canSet := Inherit(settable, f);
    assert (loc + [p[0]]) + p[1..] == loc + p by {
      assert p == [p[0]] + p[1..];
    }
    if |p| > 1 {
      assert DeclAt(prefix, v, settable, loc, p) == DeclAt(name, f.val, canSet, loc + [p[0]], p[1..]);
      DeclAtLocation(name, f.val, canSet, loc + [p[0]], p[1..]);
    }
  }

  /** A declaration's default is the value at its path, whose type its flag
      type accepts. */
  lemma {:induction false} DeclAtDefault(prefix: string, v: Value, settable: bool, loc: seq<nat>, p: seq<nat>)
    requires DeclAt(prefix, v, settable, loc, p).Some?
    ensures IsLeafAt(v, p)
    ensures ValueAt(v, p).value.datum == DeclAt(prefix, v, settable, loc, p).value.defValue
    ensures FlagTypeOf(ValueAt(v, p).value.ty) == Some(DeclAt(prefix, v, settable, loc, p).value.kind)
    decreases p
  {
    var f := v.fields[p[0]];
    assert ValueAt(v, p) == ValueAt(f.val, p[1..]);
    if |p| > 1 {
      var name := Qualify(prefix, BaseName(f));
      var canSet := Inherit(settable, f);
      assert DeclAt(prefix, v, settable, loc, p) == DeclAt(name, f.val, canSet, loc + [p[0]], p[1..]);
      DeclAtDefault(name, f.val, canSet, loc + [p[0]], p[1..]);
    }
  }

  lemma {:induction false} OneFieldSound(prefix: string, fs: seq<Field>, settable: bool, loc: seq<nat>, i: nat)
    requires i < |fs|
    ensures forall d :: d in OneField(prefix, fs, settable, loc, i) ==>
      exists p :: |p| >= 1 && p[0] == i && DeclAt(prefix, StructValue(fs), settable, loc, p) == Some(d)
    decreases fs, 0
  {
    var v := StructValue(fs);
    var f := fs[i];
    if Get(f.tags, TagConf) != Skip {
      var name := Qualify(prefix, BaseName(f));
      var canSet := Inherit(settable, f);
      if f.val.StructValue? {
        AddFlagsSound(name, f.val, canSet, loc + [i]);
        forall d | d in OneField(prefix, fs, settable, loc, i)
          ensures exists p :: |p| >= 1 && p[0] == i && DeclAt(prefix, v, settable, loc, p) == Some(d)
        {
          var q :| |q| >= 1 && DeclAt(name, f.val, canSet, loc + [i], q) == Some(d);
          var p := [i] + q;
          assert p[1..] == q;
          assert DeclAt(prefix, v, settable, loc, p) == Some(d);
        }
      } else {
        assert [i][1..] == [];
        forall d | d in OneField(prefix, fs, settable, loc, i)
          ensures DeclAt(prefix, v, settable, loc, [i]) == Some(d)
        {
        }
      }
    }
  }

  lemma {:induction false} FieldFlagsSound(prefix: string, fs: seq<Field>, settable: bool, loc: seq<nat>, i: nat)
    requires i <= |fs|
    ensures forall d :: d in FieldFlags(prefix, fs, settable, loc, i) ==>
      exists p :: |p| >= 1 && i <= p[0] && DeclAt(prefix, StructValue(fs), settable, loc, p) == Some(d)
    decreases fs, |fs| - i
  {
    if i < |fs| {
      OneFieldSound(prefix, fs, settable, loc, i);
      FieldFlagsSound(prefix, fs, settable, loc, i + 1);
    }
  }

  /** Every declaration addFlags makes is the one its own path yields. */
  lemma {:induction false} AddFlagsSound(prefix: string, v: Value, settable: bool, loc: seq<nat>)
    ensures forall d :: d in AddFlags(prefix, v, settable, loc) ==>
      exists p :: |p| >= 1 && DeclAt(prefix, v, settable, loc, p) == Some(d)
    decreases v
  {
    if v.StructValue? {
      FieldFlagsSound(prefix, v.fields, settable, loc, 0);
    }
  }

  lemma {:induction false} OneFieldComplete(prefix: string, fs: seq<Field>, settable: bool, loc: seq<nat>, p: seq<nat>)
    requires |p| >= 1 && p[0] < |fs| && DeclAt(prefix, StructValue(fs), settable, loc, p).Some?
    ensures DeclAt(prefix, StructValue(fs), settable, loc, p).value in OneField(prefix, fs, settable, loc, p[0])
    decreases fs, 0
  {
    var f := fs[p[0]];
    var name := Qualify(prefix, BaseName(f));
    var canSet := Inherit(settable, f);
    if |p| > 1 {
      AddFlagsComplete(name, f.val, canSet, loc + [p[0]], p[1..]);
    }
  }

  lemma {:induction false} FieldFlagsComplete(prefix: string, fs: seq<Field>, settable: bool, loc: seq<nat>, i: nat, p: seq<nat>)
    requires i <= |fs|
    requires |p| >= 1 && i <= p[0] && DeclAt(prefix, StructValue(fs), settable, loc, p).Some?
    ensures DeclAt(prefix, StructValue(fs), settable, loc, p).value in FieldFlags(prefix, fs, settable, loc, i)
    decreases fs, |fs| - i
  {
    var d := DeclAt(prefix, StructValue(fs), settable, loc, p).value;
    var here := OneField(prefix, fs, settable, loc, i);
    var rest := FieldFlags(prefix, fs, settable, loc, i + 1);
    assert FieldFlags(prefix, fs, settable, loc, i) == here + rest;
    if p[0] > i {
      FieldFlagsComplete(prefix, fs, settable, loc, i + 1, p);
      assert d in rest;
    } else {
      OneFieldComplete(prefix, fs, settable, loc, p);
      assert d in here;
    }
    assert d in here + rest;
  }

  /** Every declaration some path yields is among addFlags's declarations. */
  lemma {:induction false} AddFlagsComplete(prefix: string, v: Value, settable: bool, loc: seq<nat>, p: seq<nat>)
    requires DeclAt(prefix, v, settable, loc, p).Some?
    ensures DeclAt(prefix, v, settable, loc, p).value in AddFlags(prefix, v, settable, loc)
    decreases v
  {
    FieldFlagsComplete(prefix, v.fields, settable, loc, 0, p);
  }

  // ---------------------------------------------------------------------
  // Distinct locations
  // ---------------------------------------------------------------------

  /** No two declarations write to the same field. */
  predicate DistinctLocs(ds: seq<Decl>) {
    forall j, k :: 0 <= j < k < |ds| ==> ds[j].loc != ds[k].loc
  }

  lemma DistinctConcat(a: seq<Decl>, b: seq<Decl>)
    requires DistinctLocs(a) && DistinctLocs(b)
    requires forall x, y :: x in a && y in b ==> x.loc != y.loc
    ensures DistinctLocs(a + b)
  {
    var c := a + b;
    forall j, k | 0 <= j < k < |c| ensures c[j].loc != c[k].loc {
      if k < |a| {
        assert c[j] == a[j] && c[k] == a[k];
      } else if j >= |a| {
        assert c[j] == b[j - |a|] && c[k] == b[k - |a|];
      } else {
        assert c[j] in a && c[k] in b;
      }
    }
  }

  /** Every declaration from field `i` on lies below `loc + [j]` for some j >= i. */
  lemma FieldFlagsBelow(prefix: string, fs: seq<Field>, settable: bool, loc: seq<nat>, i: nat)
    requires i <= |fs|
    ensures forall d :: d in FieldFlags(prefix, fs, settable, loc, i) ==>
      |d.loc| > |loc| && d.loc[..|loc|] == loc && d.loc[|loc|] >= i
  {
    FieldFlagsSound(prefix, fs, settable, loc, i);
    forall d | d in FieldFlags(prefix, fs, settable, loc, i)
      ensures |d.loc| > |loc| && d.loc[..|loc|] == loc && d.loc[|loc|] >= i
    {
      var p :| |p| >= 1 && i <= p[0] && DeclAt(prefix, StructValue(fs), settable, loc, p) == Some(d);
      DeclAtLocation(prefix, StructValue(fs), settable, loc, p);
      assert d.loc == loc + p;
    }
  }

  /** Every declaration field `i` contributes lies below `loc + [i]`. */
  lemma OneFieldBelow(prefix: string, fs: seq<Field>, settable: bool, loc: seq<nat>, i: nat)
    requires i < |fs|
    ensures forall d :: d in OneField(prefix, fs, settable, loc, i) ==>
      |d.loc| > |loc| && d.loc[..|loc|] == loc && d.loc[|loc|] == i
  {
    OneFieldSound(prefix, fs, settable, loc, i);
    forall d | d in OneField(prefix, fs, settable, loc, i)
      ensures |d.loc| > |loc| && d.loc[..|loc|] == loc && d.loc[|loc|] == i
    {
      var p :| |p| >= 1 && p[0] == i && DeclAt(prefix, StructValue(fs), settable, loc, p) == Some(d);
      DeclAtLocation(prefix, StructValue(fs), settable, loc, p);
      assert d.loc == loc + p;
    }
  }

  lemma {:induction false} FieldFlagsDistinct(prefix: string, fs: seq<Field>, settable: bool, loc: seq<nat>, i: nat)
    requires i <= |fs|
    ensures DistinctLocs(FieldFlags(prefix, fs, settable, loc, i))
    decreases fs, |fs| - i
  {
    if i < |fs| {
      var head := OneField(prefix, fs, settable, loc, i);
      var rest := FieldFlags(prefix, fs, settable, loc, i + 1);
      FieldFlagsDistinct(prefix, fs, settable, loc, i + 1);
      OneFieldDistinct(prefix, fs, settable, loc, i);
      OneFieldBelow(prefix, fs, settable, loc, i);
      FieldFlagsBelow(prefix, fs, settable, loc, i + 1);
      DistinctConcat(head, rest);
    }
  }

  lemma {:induction false} OneFieldDistinct(prefix: string, fs: seq<Field>, settable: bool, loc: seq<nat>, i: nat)
    requires i < |fs|
    ensures DistinctLocs(OneField(prefix, fs, settable, loc, i))
    decreases fs, 0
  {
    var f := fs[i];
    if Get(f.tags, TagConf) != Skip && f.val.StructValue? {
      AddFlagsDistinct(Qualify(prefix, BaseName(f)), f.val, Inherit(settable, f), loc + [i]);
    }
  }

  /** addFlags never binds two flags to the same field. */
  lemma {:induction false} AddFlagsDistinct(prefix: string, v: Value, settable: bool, loc: seq<nat>)
    ensures DistinctLocs(AddFlags(prefix, v, settable, loc))
    decreases v
  {
    if v.StructValue? {
      FieldFlagsDistinct(prefix, v.fields, settable, loc, 0);
    }
  }

  // ---------------------------------------------------------------------
  // Walk order
  // ---------------------------------------------------------------------

  /** Field path `a` comes before `b` in a depth-first walk by field index:
      they agree up to some position, where `a` has the smaller index. */
  predicate LocBefore(a: seq<nat>, b: seq<nat>) {
    exists k :: 0 <= k < |a| && k < |b| && a[..k] == b[..k] && a[k] < b[k]
  }

  /** The declarations come in the order addFlags visits their fields. */
  predicate InWalkOrder(ds: seq<Decl>) {
    forall j, k :: 0 <= j < k < |ds| ==> LocBefore(ds[j].loc, ds[k].loc)
  }

  lemma OrderConcat(a: seq<Decl>, b: seq<Decl>)
    requires InWalkOrder(a) && InWalkOrder(b)
    requires forall x, y :: x in a && y in b ==> LocBefore(x.loc, y.loc)
    ensures InWalkOrder(a + b)
  {
    var c := a + b;
    forall j, k | 0 <= j < k < |c| ensures LocBefore(c[j].loc, c[k].loc) {
      if k < |a| {
        assert c[j] == a[j] && c[k] == a[k];
      } else if j >= |a| {
        assert c[j] == b[j - |a|] && c[k] == b[k - |a|];
      } else {
        assert c[j] in a && c[k] in b;
      }
    }
  }

  /** What field `i` contributes comes before what the later fields do. */
  lemma FieldBeforeRest(prefix: string, fs: seq<Field>, settable: bool, loc: seq<nat>, i: nat)
    requires i < |fs|
    ensures forall x, y ::
      (x in OneField(prefix, fs, settable, loc, i) && y in FieldFlags(prefix, fs, settable, loc, i + 1))
      ==> LocBefore(x.loc, y.loc)
  {
    OneFieldBelow(prefix, fs, settable, loc, i);
    FieldFlagsBelow(prefix, fs, settable, loc, i + 1);
    forall x, y | x in OneField(prefix, fs, settable, loc, i) && y in FieldFlags(prefix, fs, settable, loc, i + 1)
      ensures LocBefore(x.loc, y.loc)
    {
      var k := |loc|;
      assert x.loc[..k] == y.loc[..k] && x.loc[k] < y.loc[k];
    }
  }

  lemma {:induction false} FieldFlagsInWalkOrder(prefix: string, fs: seq<Field>, settable: bool, loc: seq<nat>, i: nat)
    requires i <= |fs|
    ensures InWalkOrder(FieldFlags(prefix, fs, settable, loc, i))
    decreases fs, |fs| - i
  {
    if i < |fs| {
      FieldFlagsInWalkOrder(prefix, fs, settable, loc, i + 1);
      OneFieldInWalkOrder(prefix, fs, settable, loc, i);
      FieldBeforeRest(prefix, fs, settable, loc, i);
      OrderConcat(OneField(prefix, fs, settable, loc, i), FieldFlags(prefix, fs, settable, loc, i + 1));
    }
  }

  lemma {:induction false} OneFieldInWalkOrder(prefix: string, fs: seq<Field>, settable: bool, loc: seq<nat>, i: nat)
    requires i < |fs|
    ensures InWalkOrder(OneField(prefix, fs, settable, loc, i))
    decreases fs, 0
  {
    var f := fs[i];
    if Get(f.tags, TagConf) != Skip && f.val.StructValue? {
      AddFlagsInWalkOrder(Qualify(prefix, BaseName(f)), f.val, Inherit(settable, f), loc + [i]);
    }
  }

  /** addFlags declares depth first, fields in index order: of any two
      declarations, the earlier one's field comes first in that order. */
  lemma {:induction false} AddFlagsInWalkOrder(prefix: string, v: Value, settable: bool, loc: seq<nat>)
    ensures InWalkOrder(AddFlags(prefix, v, settable, loc))
    decreases v
  {
    if v.StructValue? {
      FieldFlagsInWalkOrder(prefix, v.fields, settable, loc, 0);
    }
  }

  // ---------------------------------------------------------------------
  // What the characterisation implies
  // ---------------------------------------------------------------------

  /** A leaf whose own path yields nothing gets no flag. */
  lemma NoFlagWithoutDecl(prefix: string, v: Value, settable: bool, loc: seq<nat>, q: seq<nat>)
    requires DeclAt(prefix, v, settable, loc, q).None?
    ensures forall d :: d in AddFlags(prefix, v, settable, loc) ==> d.loc != loc + q
  {
    AddFlagsSound(prefix, v, settable, loc);
    forall d | d in AddFlags(prefix, v, settable, loc) ensures d.loc != loc + q {
      var p :| |p| >= 1 && DeclAt(prefix, v, settable, loc, p) == Some(d);
      DeclAtLocation(prefix, v, settable, loc, p);
      assert p != q;
      assert (loc + p)[|loc|..] == p && (loc + q)[|loc|..] == q;
    }
  }

  /** The field `q` names (q non-empty), if the path exists. */
  function FieldAt(v: Value, q: seq<nat>): Option<Field>
    decreases q
  {
    if q == [] || !v.StructValue? || q[0] >= |v.fields| then None
    else if |q| == 1 then Some(v.fields[q[0]])
    else FieldAt(v.fields[q[0]].val, q[1..])
  }

  /** Every field on the path to a flagged leaf is exported or embedded and
      not tagged `conf:"-"`, the leaf's own field is exported, and the walk
      started from a settable struct. */
  lemma {:induction false} DeclAtPathFields(prefix: string, v: Value, settable: bool, loc: seq<nat>, p: seq<nat>, q: seq<nat>)
    requires DeclAt(prefix, v, settable, loc, p).Some?
    requires q != [] && q <= p
    ensures settable
    ensures FieldAt(v, q).Some?
    ensures Get(FieldAt(v, q).value.tags, TagConf) != Skip
    ensures FieldAt(v, q).value.exported || FieldAt(v, q).value.embedded
    ensures q == p ==> FieldAt(v, q).value.exported
    decreases p
  {
    var f := v.fields[p[0]];
    assert q[0] == p[0];
    if |p| > 1 {
      var name := Qualify(prefix, BaseName(f));
      var canSet := Inherit(settable, f);
      assert DeclAt(prefix, v, settable, loc, p) == DeclAt(name, f.val, canSet, loc + [p[0]], p[1..]);
      DeclAtPathFields(name, f.val, canSet, loc + [p[0]], p[1..], p[1..]);
      if |q| > 1 {
        assert q[1..] <= p[1..];
        DeclAtPathFields(name, f.val, canSet, loc + [p[0]], p[1..], q[1..]);
      }
    }
  }

  /** A field tagged `conf:"-"` contributes no flag, and neither does
      anything below it. */
  lemma SkippedSubtreeContributesNothing(prefix: string, v: Value, settable: bool, loc: seq<nat>, q: seq<nat>)
    requires FieldAt(v, q).Some? && Get(FieldAt(v, q).value.tags, TagConf) == Skip
    ensures forall d :: d in AddFlags(prefix, v, settable, loc) ==> !(loc + q <= d.loc)
  {
    AddFlagsSound(prefix, v, settable, loc);
    forall d | d in AddFlags(prefix, v, settable, loc) ensures !(loc + q <= d.loc) {
      var p :| |p| >= 1 && DeclAt(prefix, v, settable, loc, p) == Some(d);
      DeclAtLocation(prefix, v, settable, loc, p);
      if loc + q <= d.loc {
        PrefixOfPath(loc, q, p);
        DeclAtPathFields(prefix, v, settable, loc, p, q);
      }
    }
  }

  /** Nothing at or below an unexported field that is not embedded gets a
      flag: reflection marks the whole subtree read-only. */
  lemma UnexportedSubtreeContributesNothing(prefix: string, v: Value, settable: bool, loc: seq<nat>, q: seq<nat>)
    requires FieldAt(v, q).Some? && !FieldAt(v, q).value.exported && !FieldAt(v, q).value.embedded
    ensures forall d :: d in AddFlags(prefix, v, settable, loc) ==> !(loc + q <= d.loc)
  {
    AddFlagsSound(prefix, v, settable, loc);
    forall d | d in AddFlags(prefix, v, settable, loc) ensures !(loc + q <= d.loc) {
      var p :| |p| >= 1 && DeclAt(prefix, v, settable, loc, p) == Some(d);
      DeclAtLocation(prefix, v, settable, loc, p);
      if loc + q <= d.loc {
        PrefixOfPath(loc, q, p);
        DeclAtPathFields(prefix, v, settable, loc, p, q);
      }
    }
  }

  /** An unexported field, embedded or not, never gets a flag of its own. */
  lemma UnexportedFieldGetsNoFlag(prefix: string, v: Value, settable: bool, loc: seq<nat>, q: seq<nat>)
    requires FieldAt(v, q).Some? && !FieldAt(v, q).value.exported
    ensures forall d :: d in AddFlags(prefix, v, settable, loc) ==> d.loc != loc + q
  {
    AddFlagsSound(prefix, v, settable, loc);
    forall d | d in AddFlags(prefix, v, settable, loc) ensures d.loc != loc + q {
      var p :| |p| >= 1 && DeclAt(prefix, v, settable, loc, p) == Some(d);
      DeclAtLocation(prefix, v, settable, loc, p);
      if d.loc == loc + q {
        assert p == q by {
          assert (loc + p)[|loc|..] == p && (loc + q)[|loc|..] == q;
        }
        DeclAtPathFields(prefix, v, settable, loc, p, q);
      }
    }
  }

  /** A location below `loc + q` of the form `loc + p` has `q` as a prefix of `p`. */
  lemma PrefixOfPath(loc: seq<nat>, q: seq<nat>, p: seq<nat>)
    requires loc + q <= loc + p
    ensures q <= p
  {
    assert |q| <= |p|;
    forall k | 0 <= k < |q| ensures q[k] == p[k] {
      assert (loc + q)[|loc| + k] == (loc + p)[|loc| + k];
    }
  }

  // ---------------------------------------------------------------------
  // Flag names
  // ---------------------------------------------------------------------

  /** strings.Join(parts, "-"). */
  function Join(parts: seq<string>): string
    requires |parts| >= 1
  {
    if |parts| == 1 then parts[0] else parts[0] + "-" + Join(parts[1..])
  }

  /** The name component each field on path `p` contributes. */
  function NamesAlong(v: Value, p: seq<nat>): seq<string>
    decreases p
  {
    if p == [] || !v.StructValue? || p[0] >= |v.fields| then []
    else [BaseName(v.fields[p[0]])] + NamesAlong(v.fields[p[0]].val, p[1..])
  }

  /** Qualifying by a non-empty component, then by the rest, is qualifying
      by their join. */
  lemma QualifyTwice(prefix: string, b: string, rest: string)
    requires b != ""
    ensures Qualify(Qualify(prefix, b), rest) == Qualify(prefix, b + "-" + rest)
  {
    if prefix != "" {
      assert (prefix + "-" + b) + "-" + rest == prefix + "-" + (b + "-" + rest);
    }
  }

  /** A flag's name is the `-`-join of the components along its path, after
      the prefix: field `B` inside field `A` is flag `A-B`. Go field names
      are never empty, which is what makes the join exact. */
  lemma {:induction false} DeclName(prefix: string, v: Value, settable: bool, loc: seq<nat>, p: seq<nat>)
    requires DeclAt(prefix, v, settable, loc, p).Some?
    requires forall k :: 0 <= k < |NamesAlong(v, p)| ==> NamesAlong(v, p)[k] != ""
    ensures |NamesAlong(v, p)| == |p|
    ensures DeclAt(prefix, v, settable, loc, p).value.name == Qualify(prefix, Join(NamesAlong(v, p)))
    decreases p
  {
    var f := v.fields[p[0]];
    var b := BaseName(f);
    var names := NamesAlong(v, p);
    assert names == [b] + NamesAlong(f.val, p[1..]);
    if |p| > 1 {
      var name := Qualify(prefix, b);
      var canSet := Inherit(settable, f);
      assert DeclAt(prefix, v, settable, loc, p) == DeclAt(name, f.val, canSet, loc + [p[0]], p[1..]);
      assert forall k :: 0 <= k < |names[1..]| ==> names[1..][k] == names[k + 1];
      DeclName(name, f.val, canSet, loc + [p[0]], p[1..]);
      assert names[0] == b;
      QualifyTwice(prefix, b, Join(names[1..]));
    }
  }
}
