/** The behaviours the redactor's own tests pin down, as concrete cases. */
module RedactExamples {
  import opened Wrappers
  import opened GoValues
  import opened Redactor
  import StrConv

  const Username := Field("Username", map[], true, false, Str("jdoe"))
  const Password := Field("Password", map[TagRedact := "true"], true, false, Str("iloveyou"))
  const InnocentBytes := Field("InnocentBytes", map[TagRedact := "false"], true, false, Scalar(Builtin(Slice), Ref(1)))
  const SecretBytes := Field("SecretBytes", map[TagRedact := "1"], true, false, Scalar(Builtin(Slice), Ref(2)))

  /** ExampleRedact: a truthy-tagged string and byte slice are zeroed, the
      untagged and falsy-tagged fields are copied: `{jdoe  [1 2 3] []}`. */
  lemma ExampleRedact()
    ensures Redact(Some(StructValue([Username, Password, InnocentBytes, SecretBytes])))
      == Ok(StructValue([Username, Password.(val := Str("")), InnocentBytes,
                         SecretBytes.(val := Scalar(Builtin(Slice), Ref(0)))]))
  {
    var fs := [Username, Password, InnocentBytes, SecretBytes];
    var gs := [Username, Password.(val := Str("")), InnocentBytes,
               SecretBytes.(val := Scalar(Builtin(Slice), Ref(0)))];
    assert RedactField(Username) == Ok(gs[0]);
    assert ShouldRedact(Password) == Ok(true);
    assert RedactField(Password) == Ok(gs[1]);
    assert ShouldRedact(InnocentBytes) == Ok(false);
    assert RedactField(InnocentBytes) == Ok(gs[2]);
    assert ShouldRedact(SecretBytes) == Ok(true);
    assert RedactField(SecretBytes) == Ok(gs[3]);
    RedactFour(Username, Password, InnocentBytes, SecretBytes, gs);
  }

  /** TestRedact_Panic_Invalid_Tag_Value: a tag that is not a boolean literal panics. */
  lemma InvalidTagPanics()
    ensures Redact(Some(StructValue([Field("S", map[TagRedact := "notbool"], true, false, Str(""))])))
      == Err(BadRedactTag("notbool"))
  {
    var f := Field("S", map[TagRedact := "notbool"], true, false, Str(""));
    assert ShouldRedact(f) == Err(BadRedactTag("notbool"));
    assert RedactField(f) == Err(BadRedactTag("notbool"));
    assert RedactFields([f]) == Err(BadRedactTag("notbool"));
  }

  /** For a tag with nothing `%q` must escape, the message quotes it verbatim. */
  lemma BadTagMessageShape(t: string)
    requires '"' !in t && '\\' !in t
    ensures Message(BadRedactTag(t))
      == "conf: error parsing redact tag: strconv.ParseBool: parsing " + ("\"" + t + "\"") + ": invalid syntax"
  {
    StrConv.QuotePlain(t);
  }

  /** The message of that panic, word for word (split where `%q` quotes). */
  lemma InvalidTagMessage()
    ensures Message(BadRedactTag("notbool"))
      == "conf: error parsing redact tag: strconv.ParseBool: parsing " + ("\"" + "notbool" + "\"") + ": invalid syntax"
  {
    BadTagMessageShape("notbool");
  }

  /** TestRedact_Panic_Invalid_Kind: a pointer to a struct is refused. */
  lemma InvalidKindPanics()
    ensures Redact(Some(Scalar(Builtin(Ptr), Ref(1)))) == Err(NotStruct(Ptr))
  {
  }

  /** `Redact(nil)`: the nil interface has kind `invalid`. */
  lemma NilPanics()
    ensures Redact(None) == Err(NotStruct(Invalid))
    ensures Message(Redact(None).error) == "conf: Redact called on " + "invalid" + " (only structs are acceptable)"
  {
    assert KindName(Invalid) == "invalid";
  }

  /** The message of that panic names the pointer kind. */
  lemma InvalidKindMessage()
    ensures Message(NotStruct(Ptr)) == "conf: Redact called on " + "ptr" + " (only structs are acceptable)"
  {
    assert KindName(Ptr) == "ptr";
  }

  /** The tag is read before exportedness: a bad tag on an unexported field
      still panics. */
  lemma BadTagOnUnexportedFieldPanics()
    ensures Redact(Some(StructValue([Field("secret", map[TagRedact := "yes"], false, false, Str("x"))])))
      == Err(BadRedactTag("yes"))
  {
    var f := Field("secret", map[TagRedact := "yes"], false, false, Str("x"));
    assert ShouldRedact(f) == Err(BadRedactTag("yes"));
    assert RedactField(f) == Err(BadRedactTag("yes"));
    assert RedactFields([f]) == Err(BadRedactTag("yes"));
  }

  /** A bad tag inside a struct field that is itself redacted is never read. */
  lemma BadTagUnderRedactedFieldIgnored()
    ensures
      var inner := StructValue([Field("A", map[TagRedact := "yes"], true, false, Str("x"))]);
      Redact(Some(StructValue([Field("Sub", map[TagRedact := "T"], true, false, inner)])))
        == Ok(StructValue([Field("Sub", map[TagRedact := "T"], true, false, Zero(inner))]))
  {
    var inner := StructValue([Field("A", map[TagRedact := "yes"], true, false, Str("x"))]);
    var f := Field("Sub", map[TagRedact := "T"], true, false, inner);
    assert ShouldRedact(f) == Ok(true);
    assert RedactField(f) == Ok(f.(val := Zero(inner)));
    var r := RedactFields([f]);
    assert r.Ok? && r.value[0] == f.(val := Zero(inner));
    assert r.value == [r.value[0]];
  }

  function Tagged(name: string, tag: string): Field {
    Field(name, map[TagRedact := tag], true, false, Str("a"))
  }

  /** TestRedact's subConfig: tags `true`, `t`, `false`, `f` and none. */
  const Untagged := Field("S5", map[], true, false, Str("a"))
  const Sub := [Tagged("S1", "true"), Tagged("S2", "t"), Tagged("S3", "false"), Tagged("S4", "f"), Untagged]
  const SubRedacted := [Tagged("S1", "true").(val := Str("")), Tagged("S2", "t").(val := Str("")),
                        Tagged("S3", "false"), Tagged("S4", "f"), Untagged]

  lemma TaggedField(name: string, tag: string, b: bool)
    requires StrConv.ParseBool(tag) == Some(b)
    ensures RedactField(Tagged(name, tag)) == Ok(if b then Tagged(name, tag).(val := Str("")) else Tagged(name, tag))
  {
  }

  /** A five-field struct redacts field by field. */
  lemma RedactFive(a: Field, b: Field, c: Field, d: Field, e: Field, gs: seq<Field>)
    requires |gs| == 5
    requires RedactField(a) == Ok(gs[0]) && RedactField(b) == Ok(gs[1]) && RedactField(c) == Ok(gs[2])
    requires RedactField(d) == Ok(gs[3]) && RedactField(e) == Ok(gs[4])
    ensures RedactValue(StructValue([a, b, c, d, e])) == Ok(StructValue(gs))
  {
    var fs := [a, b, c, d, e];
    forall i | 0 <= i < 5 ensures RedactField(fs[i]) == Ok(gs[i]) {
      if i == 0 {} else if i == 1 {} else if i == 2 {} else if i == 3 {} else {}
    }
    RedactValueFromFields(fs, gs);
  }

  /** A four-field struct redacts field by field. */
  lemma RedactFour(a: Field, b: Field, c: Field, d: Field, gs: seq<Field>)
    requires |gs| == 4
    requires RedactField(a) == Ok(gs[0]) && RedactField(b) == Ok(gs[1])
    requires RedactField(c) == Ok(gs[2]) && RedactField(d) == Ok(gs[3])
    ensures Redact(Some(StructValue([a, b, c, d]))) == Ok(StructValue(gs))
  {
    var fs := [a, b, c, d];
    forall i | 0 <= i < 4 ensures RedactField(fs[i]) == Ok(gs[i]) {
      if i == 0 {} else if i == 1 {} else if i == 2 {} else {}
    }
    RedactValueFromFields(fs, gs);
  }

  /** `true` and `t` redact; `false`, `f` and an absent tag keep. */
  lemma TestRedactSubConfig()
    ensures RedactValue(StructValue(Sub)) == Ok(StructValue(SubRedacted))
  {
    TaggedField("S1", "true", true);
    TaggedField("S2", "t", true);
    TaggedField("S3", "false", false);
    TaggedField("S4", "f", false);
    assert RedactField(Untagged) == Ok(Untagged);
    RedactFive(Sub[0], Sub[1], Sub[2], Sub[3], Sub[4], SubRedacted);
  }

  const Kept := Field("SubConfig", map[], true, false, StructValue(Sub))
  const Dropped := Field("SubConfigRedact", map[TagRedact := "true"], true, false, StructValue(Sub))
  const Hidden := Field("unexported", map[], false, false, Str("a"))

  /** A kept struct field is redacted inside. */
  lemma KeptStructRedactedInside()
    ensures RedactField(Kept) == Ok(Kept.(val := StructValue(SubRedacted)))
  {
    TestRedactSubConfig();
  }

  /** A struct field tagged `true` becomes all zeros. */
  lemma DroppedStructZeroed()
    ensures RedactField(Dropped) == Ok(Dropped.(val := Zero(StructValue(Sub))))
  {
    assert ShouldRedact(Dropped) == Ok(true);
  }

  /** An unexported field is zeroed whatever its tags. */
  lemma HiddenFieldZeroed()
    ensures RedactField(Hidden) == Ok(Hidden.(val := Str("")))
  {
    assert !Keeps(Hidden);
  }

  /** The expected result of TestRedact's nesting. */
  const NestedRedacted := [Kept.(val := StructValue(SubRedacted)),
                           Dropped.(val := Zero(StructValue(Sub))),
                           Hidden.(val := Str(""))]

  /** TestRedact's nesting: the three cases together. */
  lemma TestRedactNested()
    ensures Redact(Some(StructValue([Kept, Dropped, Hidden]))) == Ok(StructValue(NestedRedacted))
  {
    KeptStructRedactedInside();
    DroppedStructZeroed();
    HiddenFieldZeroed();
    RedactThree(Kept, Dropped, Hidden, NestedRedacted);
  }

  /** A three-field struct redacts field by field. */
  lemma RedactThree(a: Field, b: Field, c: Field, gs: seq<Field>)
    requires |gs| == 3
    requires RedactField(a) == Ok(gs[0]) && RedactField(b) == Ok(gs[1]) && RedactField(c) == Ok(gs[2])
    ensures Redact(Some(StructValue([a, b, c]))) == Ok(StructValue(gs))
  {
    RedactValueFromFields([a, b, c], gs);
  }
}
