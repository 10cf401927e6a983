/** The redactor: a same-typed copy of a struct in which every field whose
    `redact` tag parses as true, and every unexported field, holds its zero
    value. Go's panics are `Err` results. */
module Redactor {
  import opened Wrappers
  import opened GoValues
  import StrConv

  const TagRedact: string := "redact"

  datatype RedactError =
    | NotStruct(kind: Kind)       // Redact called on a non-struct
    | BadRedactTag(text: string)  // strconv.ParseBool rejected the tag

  /** The panic message for each error. */
  function Message(e: RedactError): string {
    match e
    case NotStruct(k) =>
      "conf: Redact called on " + KindName(k) + " (only structs are acceptable)"
    case BadRedactTag(t) =>
      "conf: error parsing redact tag: strconv.ParseBool: parsing " + StrConv.Quote(t) + ": invalid syntax"
  }

  /** shouldRedact: an absent tag is "keep"; a present one must be a boolean literal. */
  function ShouldRedact(f: Field): (r: Result<bool, RedactError>)
    ensures TagRedact !in f.tags ==> r == Ok(false)
    ensures TagRedact in f.tags ==> (r.Err? <==> StrConv.ParseBool(f.tags[TagRedact]).None?)
    ensures r.Err? ==> r.error == BadRedactTag(f.tags[TagRedact])
    ensures r == Ok(true) <==> TagRedact in f.tags && StrConv.ParseBool(f.tags[TagRedact]) == Some(true)
  {
    match Lookup(f.tags, TagRedact)
    case None => Ok(false)
    case Some(t) =>
      match StrConv.ParseBool(t)
      case None => Err(BadRedactTag(t))
      case Some(b) => Ok(b)
  }

  /** The field is copied (recursively, if a struct) rather than zeroed. */
  predicate Keeps(f: Field) {
    ShouldRedact(f) == Ok(false) && f.exported
  }

  /** Every tag the redactor reads parses: the tags of all fields of this
      struct, and of the structs below the fields it copies. Tags under a
      zeroed field are never read. */
  predicate TagsValid(v: Value) {
    match v
    case Scalar(_, _) => true
    case StructValue(fs) =>
      forall i :: 0 <= i < |fs| ==> ShouldRedact(fs[i]).Ok? && (Keeps(fs[i]) ==> TagsValid(fs[i].val))
  }

  /** One iteration of redact's loop: the output field for input field `f`. */
  function RedactField(f: Field): (r: Result<Field, RedactError>)
    ensures ShouldRedact(f).Err? ==> r == Err(ShouldRedact(f).error)
    ensures r.Ok? ==> r.value.name == f.name && r.value.tags == f.tags && r.value.exported == f.exported
    ensures r.Ok? ==> TypeOf(r.value.val) == TypeOf(f.val)
    ensures ShouldRedact(f) == Ok(true) ==> r == Ok(f.(val := Zero(f.val)))
    ensures ShouldRedact(f).Ok? && !f.exported ==> r == Ok(f.(val := Zero(f.val)))
    ensures Keeps(f) && f.val.Scalar? ==> r == Ok(f)
    ensures Keeps(f) && f.val.StructValue? ==>
      match RedactValue(f.val)
      case Ok(w) => r == Ok(f.(val := w))
      case Err(e) => r == Err(e)
    ensures r.Err? ==> r.error.BadRedactTag?
  {
    var redacted :- ShouldRedact(f);
    if redacted || !f.exported then
      Ok(f.(val := Zero(f.val)))
    else
      var w :- RedactValue(f.val);
      Ok(f.(val := w))
  }

  /** redact's loop over the fields, stopping at the first panic. */
  function RedactFields(fs: seq<Field>): (r: Result<seq<Field>, RedactError>)
    ensures r.Ok? <==> forall i :: 0 <= i < |fs| ==> RedactField(fs[i]).Ok?
    ensures r.Ok? ==> |r.value| == |fs| && forall i :: 0 <= i < |fs| ==> RedactField(fs[i]) == Ok(r.value[i])
    ensures r.Err? ==> exists i :: 0 <= i < |fs| && RedactField(fs[i]) == Err(r.error)
                                   && forall j :: 0 <= j < i ==> RedactField(fs[j]).Ok?
    ensures r.Err? ==> r.error.BadRedactTag?
  {
    if fs == [] then Ok([])
    else
      var head :- RedactField(fs[0]);
      var tail :- RedactFields(fs[1..]);
      Ok([head] + tail)
  }

  /** redact: non-structs are returned as they are; a struct is rebuilt
      field by field into a fresh value of the same type. */
  function RedactValue(v: Value): (r: Result<Value, RedactError>)
    ensures v.Scalar? ==> r == Ok(v)
    ensures r.Ok? ==> TypeOf(r.value) == TypeOf(v)
    ensures r.Ok? && v.StructValue? ==>
      r.value.StructValue? && |r.value.fields| == |v.fields|
      && forall i :: 0 <= i < |v.fields| ==> RedactField(v.fields[i]) == Ok(r.value.fields[i])
    ensures r.Err? ==> v.StructValue? && r.error.BadRedactTag?
    ensures r.Err? ==> exists i :: 0 <= i < |v.fields| && RedactField(v.fields[i]) == Err(r.error)
                                   && forall j :: 0 <= j < i ==> RedactField(v.fields[j]).Ok?
  {
    match v
    case Scalar(_, _) => Ok(v)
    case StructValue(fs) =>
      var out :- RedactFields(fs);
      var w := StructValue(out);
      assert TypeOf(w).fields == TypeOf(v).fields by {
        forall i | 0 <= i < |fs| ensures TypeOf(w).fields[i] == TypeOf(v).fields[i] {
          assert RedactField(fs[i]) == Ok(out[i]);
        }
      }
      Ok(w)
  }

  /** The kind reflect.ValueOf reports for Redact's `interface{}` argument:
      `None` is the nil interface, whose kind is `Invalid`. */
  function ArgKind(v: Option<Value>): Kind {
    match v
    case None => Invalid
    case Some(x) => x.Kind()
  }

  /** Redact: the argument must itself be a struct. */
  function Redact(v: Option<Value>): (r: Result<Value, RedactError>)
    ensures v.None? ==> r == Err(NotStruct(Invalid))
    ensures v.Some? && v.value.Scalar? ==> r == Err(NotStruct(v.value.Kind())) && r.error.kind != Struct
    ensures v.Some? && v.value.StructValue? ==> r == RedactValue(v.value)
  {
    if ArgKind(v) != Struct then Err(NotStruct(ArgKind(v)))
    else RedactValue(v.value)
  }

  // ---------------------------------------------------------------------
  // Properties
  // ---------------------------------------------------------------------

  /** Redaction fails exactly when some tag it reads does not parse. */
  lemma {:induction false} RedactOkIffTagsValid(v: Value)
    ensures RedactValue(v).Ok? <==> TagsValid(v)
  {
    match v
    case Scalar(_, _) =>
    case StructValue(fs) =>
      forall i | 0 <= i < |fs|
        ensures RedactField(fs[i]).Ok? <==> (ShouldRedact(fs[i]).Ok? && (Keeps(fs[i]) ==> TagsValid(fs[i].val)))
      {
        RedactOkIffTagsValid(fs[i].val);
      }
      assert RedactValue(v).Ok? <==> RedactFields(fs).Ok?;
  }

  /** `p` leads to the first tag, in the order redact reads them, that does
      not parse, and `t` is that tag: every field before `p[0]` redacts, the
      field at `p[0]` either carries `t` or is a kept struct whose own first
      bad tag lies along the rest of `p`. */
  ghost predicate FirstBadTag(v: Value, p: seq<nat>, t: string)
    decreases p
  {
    && v.StructValue? && |p| >= 1 && p[0] < |v.fields|
    && (forall j :: 0 <= j < p[0] ==> RedactField(v.fields[j]).Ok?)
    && var f := v.fields[p[0]];
       if |p| == 1 then ShouldRedact(f) == Err(BadRedactTag(t))
       else Keeps(f) && FirstBadTag(f.val, p[1..], t)
  }

  /** The first bad tag is the field's own. */
  lemma BadTagHere(v: Value, i: nat, t: string)
    requires v.StructValue? && i < |v.fields|
    requires forall j :: 0 <= j < i ==> RedactField(v.fields[j]).Ok?
    requires ShouldRedact(v.fields[i]) == Err(BadRedactTag(t))
    ensures FirstBadTag(v, [i], t)
  {
  }

  /** The first bad tag lies inside a kept struct field. */
  lemma BadTagBelow(v: Value, i: nat, q: seq<nat>, t: string)
    requires v.StructValue? && i < |v.fields|
    requires forall j :: 0 <= j < i ==> RedactField(v.fields[j]).Ok?
    requires Keeps(v.fields[i]) && FirstBadTag(v.fields[i].val, q, t)
    ensures FirstBadTag(v, [i] + q, t)
  {
    assert ([i] + q)[1..] == q;
  }

  /** A field that fails without a bad tag of its own is a kept struct
      whose redaction fails with the same error. */
  lemma FieldFailsBelow(f: Field)
    requires RedactField(f).Err? && ShouldRedact(f).Ok?
    ensures Keeps(f) && f.val.StructValue? && RedactValue(f.val) == Err(RedactField(f).error)
  {
  }

  /** The first field whose redaction fails. */
  lemma FirstFailingField(v: Value, e: RedactError) returns (i: nat)
    requires RedactValue(v) == Err(e)
    ensures v.StructValue? && i < |v.fields| && RedactField(v.fields[i]) == Err(e)
    ensures forall j :: 0 <= j < i ==> RedactField(v.fields[j]).Ok?
  {
    i :| 0 <= i < |v.fields| && RedactField(v.fields[i]) == Err(e) && forall j :: 0 <= j < i ==> RedactField(v.fields[j]).Ok?;
  }

  /** A failing redaction reports the first bad tag it reads. */
  lemma {:induction false} RedactFailsAtFirstBadTag(v: Value, e: RedactError) returns (p: seq<nat>)
    requires RedactValue(v) == Err(e)
    ensures FirstBadTag(v, p, e.text)
    decreases v
  {
    var i := FirstFailingField(v, e);
    var f := v.fields[i];
    if ShouldRedact(f).Err? {
      p := [i];
      BadTagHere(v, i, e.text);
    } else {
      FieldFailsBelow(f);
      var q := RedactFailsAtFirstBadTag(f.val, e);
      p := [i] + q;
      BadTagBelow(v, i, q, e.text);
    }
  }

  /** Conversely, a first bad tag makes redaction fail with exactly that tag. */
  lemma {:induction false} FirstBadTagFails(v: Value, p: seq<nat>, t: string)
    requires FirstBadTag(v, p, t)
    ensures RedactValue(v) == Err(BadRedactTag(t))
    decreases p
  {
    var fs := v.fields;
    var i := p[0];
    var f := fs[i];
    if |p| > 1 {
      FirstBadTagFails(f.val, p[1..], t);
    }
    assert RedactField(f) == Err(BadRedactTag(t));
    var r := RedactFields(fs);
    assert r.Err?;
    var k :| 0 <= k < |fs| && RedactField(fs[k]) == Err(r.error) && forall j :: 0 <= j < k ==> RedactField(fs[j]).Ok?;
    assert k == i;
  }

  /** Redacting a redacted struct changes nothing. */
  lemma {:induction false} RedactIdempotent(v: Value)
    requires RedactValue(v).Ok?
    ensures RedactValue(RedactValue(v).value) == RedactValue(v)
  {
    var w := RedactValue(v).value;
    match v
    case Scalar(_, _) =>
    case StructValue(fs) =>
      var gs := w.fields;
      forall i | 0 <= i < |gs|
        ensures RedactField(gs[i]) == Ok(gs[i])
      {
        var f, g := fs[i], gs[i];
        assert RedactField(f) == Ok(g);
        assert ShouldRedact(g) == ShouldRedact(f);
        if ShouldRedact(f) == Ok(true) || !f.exported {
          ZeroIsCanonical(Zero(f.val));
        } else if f.val.StructValue? {
          RedactIdempotent(f.val);
        }
      }
      var out := RedactFields(gs);
      assert out.Ok?;
      assert out.value == gs;
  }

  /** Every leaf of `w` is the leaf of `v` at the same place, or its zero:
      `w` holds no data `v` did not hold. */
  predicate CopiedOrZeroed(w: Value, v: Value)
    decreases v
  {
    match v
    case Scalar(_, _) => w == v || w == Zero(v)
    case StructValue(fs) =>
      w.StructValue? && |w.fields| == |fs|
      && forall i :: 0 <= i < |fs| ==> CopiedOrZeroed(w.fields[i].val, fs[i].val)
  }

  lemma {:induction false} ZeroCopiedOrZeroed(v: Value)
    ensures CopiedOrZeroed(Zero(v), v)
  {
    match v
    case Scalar(_, _) =>
    case StructValue(fs) =>
      forall i | 0 <= i < |fs| ensures CopiedOrZeroed(Zero(v).fields[i].val, fs[i].val) {
        ZeroCopiedOrZeroed(fs[i].val);
      }
  }

  /** A struct whose every field redacts to the matching field of `gs`
      redacts to the struct of `gs`. */
  lemma RedactValueFromFields(fs: seq<Field>, gs: seq<Field>)
    requires |fs| == |gs| && forall i :: 0 <= i < |fs| ==> RedactField(fs[i]) == Ok(gs[i])
    ensures RedactValue(StructValue(fs)) == Ok(StructValue(gs))
  {
    var r := RedactFields(fs);
    assert r.Ok?;
    assert r.value == gs;
  }

  /** The copy holds only data the input already held. */
  lemma {:induction false} RedactCopiesOrZeroes(v: Value)
    requires RedactValue(v).Ok?
    ensures CopiedOrZeroed(RedactValue(v).value, v)
  {
    match v
    case Scalar(_, _) =>
    case StructValue(fs) =>
      var gs := RedactValue(v).value.fields;
      forall i | 0 <= i < |fs| ensures CopiedOrZeroed(gs[i].val, fs[i].val) {
        assert RedactField(fs[i]) == Ok(gs[i]);
        if Keeps(fs[i]) {
          if fs[i].val.StructValue? {
            RedactCopiesOrZeroes(fs[i].val);
          }
        } else {
          ZeroCopiedOrZeroed(fs[i].val);
        }
      }
  }

  /** Every datum of the copy still fits its declared kind. */
  lemma {:induction false} RedactPreservesWellTyped(v: Value)
    requires WellTyped(v) && RedactValue(v).Ok?
    ensures WellTyped(RedactValue(v).value)
  {
    match v
    case Scalar(_, _) =>
    case StructValue(fs) =>
      var gs := RedactValue(v).value.fields;
      forall i | 0 <= i < |gs| ensures WellTyped(gs[i].val) {
        assert RedactField(fs[i]) == Ok(gs[i]);
        if Keeps(fs[i]) {
          if fs[i].val.StructValue? {
            RedactPreservesWellTyped(fs[i].val);
          }
        } else {
          ZeroWellTyped(fs[i].val);
        }
      }
  }

  lemma {:induction false} ZeroWellTyped(v: Value)
    ensures WellTyped(Zero(v))
  {
    match v
    case Scalar(t, _) =>
      var k := t.Kind();
      assert DatumFits(ZeroDatum(k), k);
    case StructValue(fs) =>
      forall i | 0 <= i < |fs| ensures WellTyped(Zero(v).fields[i].val) {
        ZeroWellTyped(fs[i].val);
      }
  }

  /** The non-struct panic names the kind it was given: `invalid` for a nil
      interface, never `struct`. */
  lemma NotStructMessage(v: Option<Value>)
    requires v.None? || v.value.Scalar?
    ensures Redact(v).Err?
    ensures Message(Redact(v).error)
      == "conf: Redact called on " + KindName(ArgKind(v)) + " (only structs are acceptable)"
    ensures KindName(ArgKind(v)) != "struct"
    ensures v.None? ==> KindName(ArgKind(v)) == "invalid"
  {
  }
}
