/** Concrete cases of the flag binder: how names are formed, which fields
    get no flag, a name collision, and the precedence of the sources. */
module LoadExamples {
  import opened Wrappers
  import opened GoValues
  import opened FlagSet
  import opened Walk
  import opened EnvBinding
  import opened Loader
  import StrConv

  const Host := Field("Host", map[TagUsage := "database host"], true, false, Str("localhost"))
  const Port := Field("Port", map[], true, false, Scalar(Builtin(Int), IntV(5432)))
  const DB := Field("DB", map[], true, false, StructValue([Host, Port]))
  const Password := Field("Password", map[TagConf := "pass"], true, false, Str(""))
  const Debug := Field("Debug", map[TagConf := Skip], true, false, Scalar(Builtin(Bool), BoolV(false)))
  const Secret := Field("secret", map[], false, false, Str("x"))
  const Mode := Field("Mode", map[], true, false, Scalar(Defined("Mode", String), StringV("fast")))
  const Config := StructValue([DB, Password, Debug, Secret, Mode])

  const HostDecl := Decl("DB-Host", StringFlag, StringV("localhost"), "database host", [0, 0])
  const PortDecl := Decl("DB-Port", IntFlag, IntV(5432), "", [0, 1])
  const PassDecl := Decl("pass", StringFlag, StringV(""), "", [1])

  lemma HostFlag()
    ensures OneField("DB", [Host, Port], true, [0], 0) == [HostDecl]
  {
    assert Get(Host.tags, TagConf) == "";
    assert Get(Host.tags, TagUsage) == "database host";
    assert Qualify("DB", BaseName(Host)) == "DB-Host";
    assert Host.val.ty.Kind() == String;
    assert KindGate(String);
    assert FlagTypeOf(Host.val.ty) == Some(StringFlag);
    assert [0] + [0] == [0, 0];
  }

  lemma PortFlag()
    ensures OneField("DB", [Host, Port], true, [0], 1) == [PortDecl]
  {
    assert Get(Port.tags, TagConf) == "";
    assert Get(Port.tags, TagUsage) == "";
    assert Qualify("DB", BaseName(Port)) == "DB-Port";
    assert Port.val.ty.Kind() == Int && KindGate(Int);
    assert FlagTypeOf(Port.val.ty) == Some(IntFlag);
    assert [0] + [1] == [0, 1];
  }

  lemma DBFlags()
    ensures OneField("", Config.fields, true, [], 0) == [HostDecl, PortDecl]
  {
    HostFlag();
    PortFlag();
    assert FieldFlags("DB", [Host, Port], true, [0], 2) == [];
    assert FieldFlags("DB", [Host, Port], true, [0], 1) == [PortDecl];
    assert FieldFlags("DB", [Host, Port], true, [0], 0) == [HostDecl, PortDecl];
    assert AddFlags("DB", DB.val, true, [0]) == [HostDecl, PortDecl];
    assert Get(DB.tags, TagConf) == "";
    assert Qualify("", BaseName(DB)) == "DB";
    assert [] + [0] == [0];
  }

  lemma PassFlag()
    ensures OneField("", Config.fields, true, [], 1) == [PassDecl]
  {
    assert Get(Password.tags, TagConf) == "pass";
    assert Password.val.ty.Kind() == String && KindGate(String);
    assert FlagTypeOf(Password.val.ty) == Some(StringFlag);
    assert [] + [1] == [1];
  }

  /** `conf:"-"`, an unexported field and a named string type add nothing. */
  lemma NoOtherFlags()
    ensures FieldFlags("", Config.fields, true, [], 2) == []
  {
    assert Get(Debug.tags, TagConf) == Skip;
    assert OneField("", Config.fields, true, [], 2) == [];
    assert OneField("", Config.fields, true, [], 3) == [];
    assert Mode.val.ty.Kind() == String;
    assert FlagTypeOf(Mode.val.ty) == None;
    assert OneField("", Config.fields, true, [], 4) == [];
    assert FieldFlags("", Config.fields, true, [], 5) == [];
    assert FieldFlags("", Config.fields, true, [], 4) == [];
    assert FieldFlags("", Config.fields, true, [], 3) == [];
  }

  /** Nested fields are named parent-child, a `conf` tag renames, `conf:"-"`,
      unexported fields and named non-duration types get no flag. */
  lemma ExampleDeclarations()
    ensures AddFlags("", Config, true, []) == [HostDecl, PortDecl, PassDecl]
  {
    DBFlags();
    PassFlag();
    NoOtherFlags();
    assert FieldFlags("", Config.fields, true, [], 1) == [PassDecl];
  }

  const B := Field("B", map[], true, false, Scalar(Builtin(Int), IntV(0)))
  const A := Field("A", map[], true, false, StructValue([B]))
  const C := Field("C", map[TagConf := "A-B"], true, false, Scalar(Builtin(Int), IntV(0)))
  const Clash := StructValue([A, C])

  lemma ClashDecls()
    ensures AddFlags("", Clash, true, []) == [Decl("A-B", IntFlag, IntV(0), "", [0, 0]), Decl("A-B", IntFlag, IntV(0), "", [1])]
  {
    assert Qualify("A", BaseName(B)) == "A-B";
    assert B.val.ty.Kind() == Int && KindGate(Int);
    assert FlagTypeOf(B.val.ty) == Some(IntFlag);
    assert [0] + [0] == [0, 0] && [] + [1] == [1];
    assert OneField("A", [B], true, [0], 0) == [Decl("A-B", IntFlag, IntV(0), "", [0, 0])];
    assert FieldFlags("A", [B], true, [0], 0) == [Decl("A-B", IntFlag, IntV(0), "", [0, 0])];
    assert Get(A.tags, TagConf) == "" && Qualify("", BaseName(A)) == "A";
    assert [] + [0] == [0];
    assert OneField("", [A, C], true, [], 0) == [Decl("A-B", IntFlag, IntV(0), "", [0, 0])];
    assert FieldFlags("", [A, C], true, [], 2) == [];
    assert Get(C.tags, TagConf) == "A-B";
    assert OneField("", [A, C], true, [], 1) == [Decl("A-B", IntFlag, IntV(0), "", [1])];
    assert FieldFlags("", [A, C], true, [], 1) == [Decl("A-B", IntFlag, IntV(0), "", [1])];
  }

  lemma ClashRegister()
    ensures Register(AddFlags("", Clash, true, [])) == Err(Redefined("A-B"))
  {
    ClashDecls();
    var d := FlagOf(Decl("A-B", IntFlag, IntV(0), "", [0, 0]));
    var e := FlagOf(Decl("A-B", IntFlag, IntV(0), "", [1]));
    assert Define([], d) == Ok([d]);
    assert Define([d], e) == Err(Redefined("A-B"));
    assert DefineAll([d], [e]) == Err(Redefined("A-B"));
    assert DefineAll([], [d, e]) == Err(Redefined("A-B"));
    var decls := AddFlags("", Clash, true, []);
    assert FlagsOf(decls) == [d, e];
  }

  /** A `conf` tag can spell a nested field's name: `A.B` and a field tagged
      `conf:"A-B"` collide, and registration panics. */
  lemma ExampleCollision(inputs: Inputs, args: seq<Arg>)
    ensures Load(Clash, inputs, args) == Err(FlagRedefined("A-B"))
  {
    ClashRegister();
  }

  const X := Field("X", map[], true, false, Scalar(Builtin(Int), IntV(0)))
  /** `struct{ inner }` where `inner` is an unexported struct type with an exported field `X`. */
  const Inner := Field("inner", map[], false, true, StructValue([X]))
  /** The same field, but named: `struct{ inner inner }`. */
  const NamedInner := Field("inner", map[], false, false, StructValue([X]))
  const XDecl := Decl("inner-X", IntFlag, IntV(0), "", [0, 0])

  /** Inside the struct, `X` gets a flag only while the path is settable. */
  lemma InnerFlags()
    ensures AddFlags("inner", StructValue([X]), true, [0]) == [XDecl]
    ensures AddFlags("inner", StructValue([X]), false, [0]) == []
  {
    assert Qualify("inner", BaseName(X)) == "inner-X";
    assert X.val.ty.Kind() == Int && KindGate(Int);
    assert FlagTypeOf(X.val.ty) == Some(IntFlag);
    assert [0] + [0] == [0, 0];
    assert OneField("inner", [X], true, [0], 0) == [XDecl];
    assert OneField("inner", [X], false, [0], 0) == [];
    assert FieldFlags("inner", [X], true, [0], 1) == [];
    assert FieldFlags("inner", [X], true, [0], 0) == [XDecl];
    assert FieldFlags("inner", [X], false, [0], 1) == [];
    assert FieldFlags("inner", [X], false, [0], 0) == [];
  }

  /** The exported fields of an unexported embedded struct are settable and
      get flags under the type's name; under a named unexported field they
      are not. */
  lemma ExampleEmbedded()
    ensures AddFlags("", StructValue([Inner]), true, []) == [XDecl]
    ensures AddFlags("", StructValue([NamedInner]), true, []) == []
  {
    InnerFlags();
    assert Inherit(true, Inner) && !Inherit(true, NamedInner);
    assert Get(Inner.tags, TagConf) == "" && Qualify("", BaseName(Inner)) == "inner";
    assert Get(NamedInner.tags, TagConf) == "" && Qualify("", BaseName(NamedInner)) == "inner";
    assert [] + [0] == [0];
    assert OneField("", [Inner], true, [], 0) == [XDecl];
    assert FieldFlags("", [Inner], true, [], 1) == [];
    assert FieldFlags("", [Inner], true, [], 0) == [XDecl];
    assert OneField("", [NamedInner], true, [], 0) == [];
    assert FieldFlags("", [NamedInner], true, [], 1) == [];
    assert FieldFlags("", [NamedInner], true, [], 0) == [];
  }

  /** The report for `APP_PORT=abc` on an int flag. */
  lemma ExampleEnvMessage(cause: string)
    ensures EnvMessage(EnvError("abc", "APP_PORT", cause))
      == "invalid value \"abc\" for env var APP_PORT: " + cause
  {
    StrConv.QuotePlain("abc");
  }

  function Named(n: string): Decl {
    Decl(n, IntFlag, IntV(0), "", [])
  }

  /** Declarations named X, Y, Y, X: the panic names Y, the first name that
      is taken again, not X, whose repeat comes later. */
  lemma ExampleFirstRepeat()
    ensures Register([Named("X"), Named("Y"), Named("Y"), Named("X")]) == Err(Redefined("Y"))
  {
    var decls := [Named("X"), Named("Y"), Named("Y"), Named("X")];
    assert decls[1].name == decls[2].name;
    var j := RegisterRedefined(decls);
    assert FirstRepeatedName(decls, 2) by {
      assert decls[0].name != decls[1].name;
    }
    FirstRepeatedNameUnique(decls, j, 2);
  }

  const Solo := Field("Port", map[], true, false, Scalar(Builtin(Int), IntV(5432)))
  const SoloDecl := Decl("Port", IntFlag, IntV(5432), "", [0])
  /** Program `app`, `APP_PORT=abc` in the environment, a name converter
      that gives `APP_PORT` (the only variable this case reads), and an int
      parser that refuses the text. */
  const BadEnv := Inputs("app", map["APP_PORT" := "abc"], s => "APP_PORT",
                         (k, s) => SetResult(IntV(0), Some("parse error")))

  /** The one field registers one flag. */
  lemma SoloRegister()
    ensures Register(AddFlags("", StructValue([Solo]), true, [])) == Ok([FlagOf(SoloDecl)])
  {
    assert Solo.val.ty.Kind() == Int && KindGate(Int);
    assert FlagTypeOf(Solo.val.ty) == Some(IntFlag);
    assert [] + [0] == [0];
    assert OneField("", [Solo], true, [], 0) == [SoloDecl];
    assert FieldFlags("", [Solo], true, [], 1) == [];
    assert AddFlags("", StructValue([Solo]), true, []) == [SoloDecl];
    var f := FlagOf(SoloDecl);
    assert FlagsOf([SoloDecl]) == [f];
    assert Define([], f) == Ok([f]);
    assert DefineAll([f], []) == Ok([f]);
  }

  /** Its variable `APP_PORT` holds `abc`, which the parser refuses. */
  lemma SoloFlagFails(g: Flag)
    requires g.name == "Port" && g.kind == IntFlag
    ensures EnvFails(g, BadEnv) && EnvErrorFor(g, BadEnv) == EnvError("abc", "APP_PORT", "parse error")
  {
    assert EnvVarName(BadEnv, g.name) == "APP_PORT";
    assert HasEnv(g, BadEnv);
  }

  lemma SoloEnvFails()
    ensures SetFromEnv(AddEnvInfo([FlagOf(SoloDecl)], BadEnv), BadEnv).err
      == Some(EnvError("abc", "APP_PORT", "parse error"))
  {
    var ann := AddEnvInfo([FlagOf(SoloDecl)], BadEnv);
    assert |ann| == 1 && ann[0].name == "Port" && ann[0].kind == IntFlag;
    SoloFlagFails(ann[0]);
  }

  /** A variable that does not parse makes Load fail before the command line
      is read, reporting the value, the variable and the parser's error. */
  lemma ExampleEnvFailure(args: seq<Arg>)
    ensures Load(StructValue([Solo]), BadEnv, args).Err?
    ensures Load(StructValue([Solo]), BadEnv, args).error.EnvInvalid?
    ensures Load(StructValue([Solo]), BadEnv, args).error.envError == EnvError("abc", "APP_PORT", "parse error")
  {
    SoloRegister();
    SoloEnvFails();
  }
}
