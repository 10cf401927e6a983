/** Load: register one flag per eligible field, annotate usages, apply the
    environment, then the command line, and write the resulting values into
    the configuration struct. Precedence: default < environment < command
    line. */
module Loader {
  import opened Wrappers
  import opened GoValues
  import opened FlagSet
  import opened Walk
  import opened EnvBinding

  /** The registry entry a declaration creates: its value starts as its default. */
  function FlagOf(d: Decl): Flag {
    Flag(d.name, d.kind, d.usage, d.defValue, d.defValue, d.loc)
  }

  /** The flags the declarations ask for, in declaration order. */
  function FlagsOf(decls: seq<Decl>): (r: seq<Flag>)
    ensures |r| == |decls| && forall a :: 0 <= a < |decls| ==> r[a] == FlagOf(decls[a])
  {
    seq(|decls|, i requires 0 <= i < |decls| => FlagOf(decls[i]))
  }

  /** Registering the declarations in order into the empty registry. */
  function Register(decls: seq<Decl>): Result<seq<Flag>, FlagError> {
    DefineAll([], FlagsOf(decls))
  }

  // ---------------------------------------------------------------------
  // The command line, after the flag package has split it
  // ---------------------------------------------------------------------

  /** One `-name=value` occurrence. */
  datatype Arg = Arg(name: string, value: string)

  datatype ArgError =
    | Undefined(name: string)                              // flag provided but not defined
    | BadValue(value: string, name: string, cause: string) // invalid value for flag

  predicate UniqueNames(reg: seq<Flag>) {
    forall i, j :: 0 <= i < |reg| && 0 <= j < |reg| && i != j ==> reg[i].name != reg[j].name
  }

  /** The value of the last occurrence of flag `name`, if any. */
  function LastArg(args: seq<Arg>, name: string): (r: Option<string>)
    ensures r.Some? ==> exists j :: 0 <= j < |args| && args[j] == Arg(name, r.value)
                                    && forall k :: j < k < |args| ==> args[k].name != name
    ensures r.None? <==> forall j :: 0 <= j < |args| ==> args[j].name != name
  {
    if args == [] then None
    else
      match LastArg(args[1..], name)
      case Some(s) =>
        var j :| 0 <= j < |args| - 1 && args[1..][j] == Arg(name, s)
                 && forall k :: j < k < |args| - 1 ==> args[1..][k].name != name;
        assert args[j + 1] == Arg(name, s);
        assert forall k :: j + 1 < k < |args| ==> args[k] == args[1..][k - 1];
        Some(s)
      case None =>
        assert forall k :: 1 <= k < |args| ==> args[k] == args[1..][k - 1];
        if args[0].name == name then Some(args[0].value) else None
  }

  /** The occurrence `a` cannot be applied: no such flag, or its text does not parse. */
  predicate ArgFails(reg: seq<Flag>, a: Arg, parse: Setter) {
    match Find(reg, a.name)
    case None => true
    case Some(k) => parse(reg[k].kind, a.value).err.Some?
  }

  /** The command-line pass: occurrences are applied left to right; the
      first that cannot be applied stops the parse. */
  function ApplyArgs(reg: seq<Flag>, args: seq<Arg>, parse: Setter): (r: Result<seq<Flag>, ArgError>)
    ensures r.Ok? ==> SameBindings(reg, r.value)
    ensures r.Ok? ==> forall i :: 0 <= i < |reg| ==> r.value[i].usage == reg[i].usage
    decreases |args|
  {
    if args == [] then Ok(reg)
    else
      var a := args[0];
      match Find(reg, a.name)
      case None => Err(Undefined(a.name))
      case Some(k) =>
        var res := parse(reg[k].kind, a.value);
        if res.err.Some? then Err(BadValue(a.value, a.name, res.err.value))
        else ApplyArgs(reg[k := reg[k].(value := res.stored)], args[1..], parse)
  }

  /** Find on a registry depends only on its names. */
  lemma FindSameBindings(a: seq<Flag>, b: seq<Flag>, name: string)
    requires SameBindings(a, b)
    ensures Find(a, name) == Find(b, name)
  {
    if a != [] {
      assert SameBindings(a[1..], b[1..]);
      FindSameBindings(a[1..], b[1..], name);
    }
  }

  /** The command line succeeds exactly when every occurrence names a
      defined flag and parses. */
  lemma {:induction false} ApplyArgsFails(reg: seq<Flag>, args: seq<Arg>, parse: Setter)
    ensures ApplyArgs(reg, args, parse).Err? <==> exists j :: 0 <= j < |args| && ArgFails(reg, args[j], parse)
    decreases |args|
  {
    if args != [] {
      var a := args[0];
      match Find(reg, a.name)
      case None =>
      case Some(k) =>
        var res := parse(reg[k].kind, a.value);
        if res.err.None? {
          var reg' := reg[k := reg[k].(value := res.stored)];
          ApplyArgsFails(reg', args[1..], parse);
          forall b: Arg ensures ArgFails(reg', b, parse) == ArgFails(reg, b, parse) {
            FindSameBindings(reg, reg', b.name);
          }
          if exists j :: 0 <= j < |args| && ArgFails(reg, args[j], parse) {
            var j :| 0 <= j < |args| && ArgFails(reg, args[j], parse);
            assert j > 0;
            assert args[1..][j - 1] == args[j];
          }
          if exists j :: 0 <= j < |args| - 1 && ArgFails(reg', args[1..][j], parse) {
            var j :| 0 <= j < |args| - 1 && ArgFails(reg', args[1..][j], parse);
            assert args[j + 1] == args[1..][j];
          }
        }
    }
  }

  /** With unique names, each flag ends up with its last occurrence's
      parsed value, or keeps its value when it does not occur. */
  lemma {:induction false} ApplyArgsLastWins(reg: seq<Flag>, args: seq<Arg>, parse: Setter)
    requires UniqueNames(reg) && ApplyArgs(reg, args, parse).Ok?
    ensures forall i :: 0 <= i < |reg| ==>
      ApplyArgs(reg, args, parse).value[i].value ==
        match LastArg(args, reg[i].name)
        case Some(s) => parse(reg[i].kind, s).stored
        case None => reg[i].value
    decreases |args|
  {
    if args != [] {
      var a := args[0];
      var k := Find(reg, a.name).value;
      var res := parse(reg[k].kind, a.value);
      var reg' := reg[k := reg[k].(value := res.stored)];
      assert UniqueNames(reg');
      ApplyArgsLastWins(reg', args[1..], parse);
      forall i | 0 <= i < |reg|
        ensures ApplyArgs(reg, args, parse).value[i].value ==
          match LastArg(args, reg[i].name)
          case Some(s) => parse(reg[i].kind, s).stored
          case None => reg[i].value
      {
        assert reg'[i].name == reg[i].name && reg'[i].kind == reg[i].kind;
        if i == k {
          assert a.name == reg[i].name;
        } else {
          assert a.name != reg[i].name;
        }
      }
    }
  }

  // ---------------------------------------------------------------------
  // Writing flag values back into the struct
  // ---------------------------------------------------------------------

  /** The flags write through their pointers: each flag's value lands in
      its field. */
  function WriteBack(v: Value, flags: seq<Flag>): (r: Value)
    ensures TypeOf(r) == TypeOf(v)
    decreases |flags|
  {
    if flags == [] then v
    else WriteBack(UpdateAt(v, flags[0].loc, flags[0].value), flags[1..])
  }

  /** Every flag points at a leaf of `v`, and no two at the same one. */
  predicate BindsDistinctLeaves(v: Value, flags: seq<Flag>) {
    && (forall i :: 0 <= i < |flags| ==> IsLeafAt(v, flags[i].loc))
    && (forall i, j :: 0 <= i < j < |flags| ==> flags[i].loc != flags[j].loc)
  }

  lemma UpdateKeepsLeaves(v: Value, p: seq<nat>, d: Datum, q: seq<nat>)
    requires IsLeafAt(v, p) && IsLeafAt(v, q)
    ensures IsLeafAt(UpdateAt(v, p, d), q)
    ensures ValueAt(UpdateAt(v, p, d), q).value.ty == ValueAt(v, q).value.ty
  {
    if p == q {
      ReadAfterWrite(v, p, d);
    } else {
      WriteFrame(v, p, q, d);
    }
  }

  /** After the write-back, each flag's field holds the flag's value, and
      every leaf no flag points at is unchanged. */
  lemma {:induction false} WriteBackReads(v: Value, flags: seq<Flag>)
    requires BindsDistinctLeaves(v, flags)
    ensures forall i :: 0 <= i < |flags| ==>
      ValueAt(WriteBack(v, flags), flags[i].loc) == Some(Scalar(ValueAt(v, flags[i].loc).value.ty, flags[i].value))
    ensures forall q :: IsLeafAt(v, q) && (forall i :: 0 <= i < |flags| ==> flags[i].loc != q) ==>
      ValueAt(WriteBack(v, flags), q) == ValueAt(v, q)
    decreases |flags|
  {
    if flags != [] {
      var f := flags[0];
      var v' := UpdateAt(v, f.loc, f.value);
      var rest := flags[1..];
      forall i | 0 <= i < |rest| ensures IsLeafAt(v', rest[i].loc) && ValueAt(v', rest[i].loc) == ValueAt(v, rest[i].loc) {
        assert rest[i] == flags[i + 1];
        WriteFrame(v, f.loc, rest[i].loc, f.value);
      }
      assert BindsDistinctLeaves(v', rest) by {
        forall i, j | 0 <= i < j < |rest| ensures rest[i].loc != rest[j].loc {
          assert rest[i] == flags[i + 1] && rest[j] == flags[j + 1];
        }
      }
      WriteBackReads(v', rest);
      ReadAfterWrite(v, f.loc, f.value);
      forall i | 0 <= i < |flags|
        ensures ValueAt(WriteBack(v, flags), flags[i].loc) == Some(Scalar(ValueAt(v, flags[i].loc).value.ty, flags[i].value))
      {
        if i > 0 {
          assert flags[i] == rest[i - 1];
        } else {
          forall j | 0 <= j < |rest| ensures rest[j].loc != f.loc {
            assert rest[j] == flags[j + 1];
          }
        }
      }
      forall q | IsLeafAt(v, q) && (forall i :: 0 <= i < |flags| ==> flags[i].loc != q)
        ensures ValueAt(WriteBack(v, flags), q) == ValueAt(v, q)
      {
        WriteFrame(v, f.loc, q, f.value);
        forall j | 0 <= j < |rest| ensures rest[j].loc != q {
          assert rest[j] == flags[j + 1];
        }
      }
    }
  }

  // ---------------------------------------------------------------------
  // Load
  // ---------------------------------------------------------------------

  datatype LoadError =
    | FlagRedefined(name: string)
      // an environment variable did not parse: usage is printed, then Load
      // panics; `config` holds what the flags had already written
    | EnvInvalid(envError: EnvError, config: Value)
    | ArgInvalid(argError: ArgError)

  datatype Loaded = Loaded(config: Value, flags: seq<Flag>)

  /** Load(&v): register, annotate, apply the environment, and only if that
      succeeded parse the command line. */
  function Load(v: Value, inputs: Inputs, args: seq<Arg>): Result<Loaded, LoadError> {
    match Register(AddFlags("", v, true, []))
    case Err(Redefined(n)) => Err(FlagRedefined(n))
    case Ok(reg) =>
      var fromEnv := SetFromEnv(AddEnvInfo(reg, inputs), inputs);
      match fromEnv.err
      case Some(e) => Err(EnvInvalid(e, WriteBack(v, fromEnv.flags)))
      case None =>
        match ApplyArgs(fromEnv.flags, args, inputs.parse)
        case Err(e) => Err(ArgInvalid(e))
        case Ok(flags) => Ok(Loaded(WriteBack(v, flags), flags))
  }

  /** The value a flag should end with: its last command-line occurrence,
      else its environment variable, else the field's original value. */
  function Resolve(f: Flag, inputs: Inputs, args: seq<Arg>): Datum {
    match LastArg(args, f.name)
    case Some(s) => inputs.parse(f.kind, s).stored
    case None => if HasEnv(f, inputs) then EnvSet(f, inputs).stored else f.defValue
  }

  /** The registered flag `f` is declaration `d`, with the environment note
      appended to its usage. */
  predicate Binds(f: Flag, d: Decl, inputs: Inputs) {
    && f.name == d.name && f.kind == d.kind && f.defValue == d.defValue && f.loc == d.loc
    && StripEnvInfo(f.usage, EnvVarName(inputs, f.name)) == Some(d.usage)
  }

  /** The registry after annotation and the environment pass. */
  function EnvStage(reg: seq<Flag>, inputs: Inputs): seq<Flag> {
    SetFromEnv(AddEnvInfo(reg, inputs), inputs).flags
  }

  /** `reg` was registered from `decls`: one flag per declaration, each
      starting at its default, names unique. */
  ghost predicate RegisteredFrom(decls: seq<Decl>, reg: seq<Flag>) {
    && UniqueNames(reg)
    && |reg| == |decls|
    && forall x :: x in reg <==> x in FlagsOf(decls)
  }

  lemma RegisterFacts(decls: seq<Decl>)
    requires Register(decls).Ok?
    ensures RegisteredFrom(decls, Register(decls).value)
  {
    DefineAllNamesDistinct(FlagsOf(decls));
  }

  /** `final` is `reg` with new values and the environment note on every
      usage. */
  predicate Annotated(reg: seq<Flag>, final: seq<Flag>, inputs: Inputs) {
    && SameBindings(reg, final)
    && forall i :: 0 <= i < |reg| ==>
         StripEnvInfo(final[i].usage, EnvVarName(inputs, reg[i].name)) == Some(reg[i].usage)
  }

  /** The stages after registration change only values and usages. */
  lemma StagesKeepBindings(reg: seq<Flag>, inputs: Inputs, args: seq<Arg>)
    ensures Annotated(reg, EnvStage(reg, inputs), inputs)
    ensures ApplyArgs(EnvStage(reg, inputs), args, inputs.parse).Ok? ==>
      Annotated(reg, ApplyArgs(EnvStage(reg, inputs), args, inputs.parse).value, inputs)
  {
    var ann := AddEnvInfo(reg, inputs);
    var env := EnvStage(reg, inputs);
    SameBindingsTrans(reg, ann, env);
    if ApplyArgs(env, args, inputs.parse).Ok? {
      SameBindingsTrans(reg, env, ApplyArgs(env, args, inputs.parse).value);
    }
  }

  /** What a successful Load is made of. */
  lemma LoadStages(v: Value, inputs: Inputs, args: seq<Arg>) returns (decls: seq<Decl>, reg: seq<Flag>)
    requires Load(v, inputs, args).Ok?
    ensures decls == AddFlags("", v, true, [])
    ensures Register(decls) == Ok(reg)
    ensures SetFromEnv(AddEnvInfo(reg, inputs), inputs).err.None?
    ensures ApplyArgs(EnvStage(reg, inputs), args, inputs.parse) == Ok(Load(v, inputs, args).value.flags)
    ensures Load(v, inputs, args).value.config == WriteBack(v, Load(v, inputs, args).value.flags)
    ensures RegisteredFrom(decls, reg)
    ensures Annotated(reg, Load(v, inputs, args).value.flags, inputs)
  {
    decls := AddFlags("", v, true, []);
    reg := Register(decls).value;
    RegisterFacts(decls);
    StagesKeepBindings(reg, inputs, args);
  }

  /** The declaration a registered flag was made from. */
  lemma OriginOf(decls: seq<Decl>, reg: seq<Flag>, i: nat) returns (a: nat)
    requires RegisteredFrom(decls, reg) && i < |reg|
    ensures a < |decls| && reg[i] == FlagOf(decls[a])
  {
    var fs := FlagsOf(decls);
    assert reg[i] in fs;
    a :| 0 <= a < |fs| && fs[a] == reg[i];
  }

  /** One flag of the registry and the path its declaration came from. */
  lemma FlagBindsDecl(v: Value, decls: seq<Decl>, reg: seq<Flag>, final: seq<Flag>, inputs: Inputs, i: nat)
    returns (p: seq<nat>)
    requires decls == AddFlags("", v, true, [])
    requires RegisteredFrom(decls, reg) && Annotated(reg, final, inputs)
    requires i < |final|
    ensures DeclAt("", v, true, [], p).Some? && Binds(final[i], DeclAt("", v, true, [], p).value, inputs)
    ensures final[i].loc == p
  {
    var a := OriginOf(decls, reg, i);
    assert decls[a] in decls;
    AddFlagsSound("", v, true, []);
    p :| |p| >= 1 && DeclAt("", v, true, [], p) == Some(decls[a]);
    DeclAtLocation("", v, true, [], p);
    assert [] + p == p;
  }

  /** One eligible leaf and the flag that binds it. */
  lemma DeclHasFlag(v: Value, decls: seq<Decl>, reg: seq<Flag>, final: seq<Flag>, inputs: Inputs, p: seq<nat>)
    returns (i: nat)
    requires decls == AddFlags("", v, true, [])
    requires RegisteredFrom(decls, reg) && Annotated(reg, final, inputs)
    requires DeclAt("", v, true, [], p).Some?
    ensures i < |final| && Binds(final[i], DeclAt("", v, true, [], p).value, inputs)
  {
    var d := DeclAt("", v, true, [], p).value;
    AddFlagsComplete("", v, true, [], p);
    var a :| 0 <= a < |decls| && decls[a] == d;
    var fs := FlagsOf(decls);
    assert fs[a] in fs;
    i :| 0 <= i < |reg| && reg[i] == fs[a];
  }

  /** Flag `f` is the declaration of some eligible leaf of `v`. */
  ghost predicate FromSomeDecl(v: Value, f: Flag, inputs: Inputs) {
    exists p :: DeclAt("", v, true, [], p).Some? && Binds(f, DeclAt("", v, true, [], p).value, inputs)
  }

  /** Some flag binds declaration `d`. */
  ghost predicate HasFlagFor(flags: seq<Flag>, d: Decl, inputs: Inputs) {
    exists i :: 0 <= i < |flags| && Binds(flags[i], d, inputs)
  }

  /** Every flag is the declaration of one eligible leaf of `v`. */
  ghost predicate FlagsFromDecls(v: Value, flags: seq<Flag>, inputs: Inputs) {
    forall i :: 0 <= i < |flags| ==> FromSomeDecl(v, flags[i], inputs)
  }

  /** Every eligible leaf of `v` has a flag. */
  ghost predicate DeclsHaveFlags(v: Value, flags: seq<Flag>, inputs: Inputs) {
    forall p :: DeclAt("", v, true, [], p).Some? ==> HasFlagFor(flags, DeclAt("", v, true, [], p).value, inputs)
  }

  lemma AllFlagsFromDecls(v: Value, decls: seq<Decl>, reg: seq<Flag>, final: seq<Flag>, inputs: Inputs)
    requires decls == AddFlags("", v, true, [])
    requires RegisteredFrom(decls, reg) && Annotated(reg, final, inputs)
    ensures FlagsFromDecls(v, final, inputs)
  {
    forall i | 0 <= i < |final| ensures FromSomeDecl(v, final[i], inputs) {
      var p := FlagBindsDecl(v, decls, reg, final, inputs, i);
    }
  }

  lemma AllDeclsHaveFlags(v: Value, decls: seq<Decl>, reg: seq<Flag>, final: seq<Flag>, inputs: Inputs)
    requires decls == AddFlags("", v, true, [])
    requires RegisteredFrom(decls, reg) && Annotated(reg, final, inputs)
    ensures DeclsHaveFlags(v, final, inputs)
  {
    forall p | DeclAt("", v, true, [], p).Some? ensures HasFlagFor(final, DeclAt("", v, true, [], p).value, inputs) {
      var i := DeclHasFlag(v, decls, reg, final, inputs, p);
    }
  }

  /** Distinct flags bind distinct leaves. */
  lemma FlagsDistinctLeaves(v: Value, decls: seq<Decl>, reg: seq<Flag>, final: seq<Flag>, inputs: Inputs)
    requires decls == AddFlags("", v, true, [])
    requires RegisteredFrom(decls, reg) && Annotated(reg, final, inputs)
    ensures UniqueNames(final) && BindsDistinctLeaves(v, final)
  {
    forall i | 0 <= i < |final| ensures IsLeafAt(v, final[i].loc) {
      var p := FlagBindsDecl(v, decls, reg, final, inputs, i);
      DeclAtDefault("", v, true, [], p);
    }
    AddFlagsDistinct("", v, true, []);
    forall i, j | 0 <= i < j < |final| ensures final[i].loc != final[j].loc {
      var a := OriginOf(decls, reg, i);
      var b := OriginOf(decls, reg, j);
      assert reg[i].name != reg[j].name;
      assert a != b;
      if b < a {
        assert decls[b].loc != decls[a].loc;
      }
    }
  }

  /** Every flag Load ends with is the declaration of one eligible leaf, and
      every eligible leaf has a flag; names are unique and no two flags
      share a field. */
  lemma LoadBindings(v: Value, inputs: Inputs, args: seq<Arg>)
    requires Load(v, inputs, args).Ok?
    ensures FlagsFromDecls(v, Load(v, inputs, args).value.flags, inputs)
    ensures DeclsHaveFlags(v, Load(v, inputs, args).value.flags, inputs)
    ensures UniqueNames(Load(v, inputs, args).value.flags)
    ensures BindsDistinctLeaves(v, Load(v, inputs, args).value.flags)
  {
    var decls, reg := LoadStages(v, inputs, args);
    var final := Load(v, inputs, args).value.flags;
    AllFlagsFromDecls(v, decls, reg, final, inputs);
    AllDeclsHaveFlags(v, decls, reg, final, inputs);
    FlagsDistinctLeaves(v, decls, reg, final, inputs);
  }

  /** Each flag ends with its last command-line value, else its
      environment variable's value, else the value its field started with. */
  lemma LoadPrecedence(v: Value, inputs: Inputs, args: seq<Arg>)
    requires Load(v, inputs, args).Ok?
    ensures forall i :: 0 <= i < |Load(v, inputs, args).value.flags| ==>
      Load(v, inputs, args).value.flags[i].value == Resolve(Load(v, inputs, args).value.flags[i], inputs, args)
  {
    var decls, reg := LoadStages(v, inputs, args);
    var ann := AddEnvInfo(reg, inputs);
    var env := EnvStage(reg, inputs);
    var final := Load(v, inputs, args).value.flags;
    SetFromEnvSucceeds(ann, inputs);
    assert UniqueNames(env);
    ApplyArgsLastWins(env, args, inputs.parse);
    forall i | 0 <= i < |final| ensures final[i].value == Resolve(final[i], inputs, args) {
      var _ := OriginOf(decls, reg, i);
      assert reg[i].value == reg[i].defValue;
      assert env[i].value == EnvApplied(ann[i], inputs);
      assert HasEnv(ann[i], inputs) == HasEnv(final[i], inputs);
    }
  }

  /** After a successful Load, each bound field holds its flag's value with
      its type unchanged, and every other leaf is as it was. */
  lemma LoadConfig(v: Value, inputs: Inputs, args: seq<Arg>)
    requires Load(v, inputs, args).Ok?
    ensures var l := Load(v, inputs, args).value;
      forall i :: 0 <= i < |l.flags| ==>
        IsLeafAt(v, l.flags[i].loc) &&
        ValueAt(l.config, l.flags[i].loc) == Some(Scalar(ValueAt(v, l.flags[i].loc).value.ty, l.flags[i].value))
    ensures var l := Load(v, inputs, args).value;
      forall q :: IsLeafAt(v, q) && (forall i :: 0 <= i < |l.flags| ==> l.flags[i].loc != q) ==>
        ValueAt(l.config, q) == ValueAt(v, q)
  {
    var _, _ := LoadStages(v, inputs, args);
    LoadBindings(v, inputs, args);
    WriteBackReads(v, Load(v, inputs, args).value.flags);
  }

  /** `e` is the error of the first flag, in registry order, whose
      variable does not parse. */
  ghost predicate FirstEnvFailure(reg: seq<Flag>, inputs: Inputs, e: EnvError) {
    exists k :: 0 <= k < |reg| && EnvFails(reg[k], inputs) && e == EnvErrorFor(reg[k], inputs)
      && forall i :: 0 <= i < k ==> !EnvFails(reg[i], inputs)
  }

  /** Where an environment failure of Load comes from. */
  lemma LoadEnvStage(v: Value, inputs: Inputs, args: seq<Arg>) returns (reg: seq<Flag>)
    requires Load(v, inputs, args).Err? && Load(v, inputs, args).error.EnvInvalid?
    ensures Register(AddFlags("", v, true, [])) == Ok(reg)
    ensures SetFromEnv(AddEnvInfo(reg, inputs), inputs).err == Some(Load(v, inputs, args).error.envError)
  {
    reg := Register(AddFlags("", v, true, [])).value;
  }

  /** A failing environment variable stops Load before the command line is
      read: the error is the first failing flag's in name order, and the
      outcome does not depend on the arguments. */
  lemma LoadEnvFailure(v: Value, inputs: Inputs, args: seq<Arg>, other: seq<Arg>)
    requires Load(v, inputs, args).Err? && Load(v, inputs, args).error.EnvInvalid?
    ensures Load(v, inputs, other) == Load(v, inputs, args)
    ensures Register(AddFlags("", v, true, [])).Ok?
    ensures FirstEnvFailure(AddEnvInfo(Register(AddFlags("", v, true, [])).value, inputs), inputs,
                            Load(v, inputs, args).error.envError)
  {
    var reg := LoadEnvStage(v, inputs, args);
    var ann := AddEnvInfo(reg, inputs);
    var k := SetFromEnvFailsFirst(ann, inputs);
    assert EnvFails(ann[k], inputs) && Load(v, inputs, args).error.envError == EnvErrorFor(ann[k], inputs);
  }

  /** Two declarations share a name: the registry refuses the second. */
  ghost predicate DuplicateNames(decls: seq<Decl>) {
    exists i, j :: 0 <= i < j < |decls| && decls[i].name == decls[j].name
  }

  /** `j` is the first declaration, in walk order, whose name an earlier one
      already took: the one the flag package panics on. */
  ghost predicate FirstRepeatedName(decls: seq<Decl>, j: int) {
    && 0 <= j < |decls|
    && (exists i :: 0 <= i < j && decls[i].name == decls[j].name)
    && forall k, i :: 0 <= i < k < j ==> decls[i].name != decls[k].name
  }

  /** There is only one first repeat. */
  lemma FirstRepeatedNameUnique(decls: seq<Decl>, j: int, j': int)
    requires FirstRepeatedName(decls, j) && FirstRepeatedName(decls, j')
    ensures j == j'
  {
  }

  /** Registration refuses a list of declarations exactly when two share a
      name, and then names the first declaration, in walk order, that
      repeats an earlier name; `j` is its index. */
  lemma RegisterRedefined(decls: seq<Decl>) returns (j: int)
    ensures Register(decls).Err? <==> DuplicateNames(decls)
    ensures Register(decls).Err? ==>
      FirstRepeatedName(decls, j) && Register(decls).error == Redefined(decls[j].name)
  {
    var fs := FlagsOf(decls);
    j := DefineAllRedefined([], fs);
    if Register(decls).Err? {
      assert Repeats([], fs, j);
      var i :| 0 <= i < j && fs[i].name == fs[j].name;
      assert decls[i].name == decls[j].name;
      forall k, i' | 0 <= i' < k < j ensures decls[i'].name != decls[k].name {
        assert !Repeats([], fs, k);
        assert fs[i'].name != fs[k].name;
      }
    }
    if DuplicateNames(decls) {
      var i, j :| 0 <= i < j < |decls| && decls[i].name == decls[j].name;
      assert fs[i].name == fs[j].name;
      assert Repeats([], fs, j);
    }
  }

  /** Load panics with "flag redefined" exactly when two eligible fields
      end up with the same flag name, before any variable is read; the
      panic names the first flag, in walk order, whose name is taken. */
  lemma LoadRedefined(v: Value, inputs: Inputs, args: seq<Arg>) returns (j: int)
    ensures (Load(v, inputs, args).Err? && Load(v, inputs, args).error.FlagRedefined?)
      <==> DuplicateNames(AddFlags("", v, true, []))
    ensures Load(v, inputs, args).Err? && Load(v, inputs, args).error.FlagRedefined? ==>
      var decls := AddFlags("", v, true, []);
      && FirstRepeatedName(decls, j) && Load(v, inputs, args).error == FlagRedefined(decls[j].name)
      && forall k :: 0 <= k < j ==> LocBefore(decls[k].loc, decls[j].loc)
  {
    j := RegisterRedefined(AddFlags("", v, true, []));
    AddFlagsInWalkOrder("", v, true, []);
  }
}
