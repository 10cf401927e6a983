/** Environment-variable binding: the variable name each flag reads, the
    usage note naming it, and the pass that applies the environment to the
    registry before the command line is parsed. */
module EnvBinding {
  import opened Wrappers
  import opened GoValues
  import opened FlagSet
  import StrConv

  // ---------------------------------------------------------------------
  // filepath.Base (Unix separators)
  // ---------------------------------------------------------------------

  function TrimTrailingSlashes(s: string): (r: string)
    ensures r <= s
    ensures r == [] || r[|r| - 1] != '/'
    ensures forall k :: |r| <= k < |s| ==> s[k] == '/'
  {
    if s != [] && s[|s| - 1] == '/' then TrimTrailingSlashes(s[..|s| - 1]) else s
  }

  /** The text after the last `/`. */
  function LastElement(s: string): (r: string)
    ensures |r| <= |s| && r == s[|s| - |r|..]
    ensures forall k :: 0 <= k < |r| ==> r[k] != '/'
    ensures |r| < |s| ==> s[|s| - |r| - 1] == '/'
  {
    if s == [] || s[|s| - 1] == '/' then []
    else LastElement(s[..|s| - 1]) + [s[|s| - 1]]
  }

  /** filepath.Base: the last path element; "." for the empty path and "/"
      for a path of slashes only. */
  function Base(path: string): (r: string)
    ensures r != []
    ensures r == "/" || forall k :: 0 <= k < |r| ==> r[k] != '/'
  {
    if path == "" then "."
    else
      var elem := LastElement(TrimTrailingSlashes(path));
      if elem == "" then "/" else elem
  }

  /** A name without slashes is its own base, however deep the directory
      the program is started from. */
  lemma BaseOfPath(dir: string, name: string)
    requires name != [] && forall k :: 0 <= k < |name| ==> name[k] != '/'
    ensures Base(name) == name
    ensures Base(dir + "/" + name) == name
  {
    LastElementOfName(name);
    var p := dir + "/" + name;
    assert TrimTrailingSlashes(p) == p;
    LastElementAfterSlash(dir, name);
  }

  /** Trailing slashes do not change the base. */
  lemma BaseIgnoresTrailingSlash(path: string)
    requires path != [] && path[|path| - 1] != '/'
    ensures Base(path + "/") == Base(path)
  {
    var q := path + "/";
    assert q[..|q| - 1] == path;
    assert TrimTrailingSlashes(q) == TrimTrailingSlashes(path);
  }

  lemma LastElementOfName(name: string)
    requires forall k :: 0 <= k < |name| ==> name[k] != '/'
    ensures LastElement(name) == name
  {
    var r := LastElement(name);
    assert |r| == |name|;
    assert name[|name| - |r|..] == name;
  }

  lemma {:induction false} LastElementAfterSlash(dir: string, name: string)
    requires forall k :: 0 <= k < |name| ==> name[k] != '/'
    ensures LastElement(dir + "/" + name) == name
    decreases |name|
  {
    var p := dir + "/" + name;
    if name == [] {
      assert p[|p| - 1] == '/';
    } else {
      var init := name[..|name| - 1];
      assert p[..|p| - 1] == dir + "/" + init;
      LastElementAfterSlash(dir, init);
      assert name == init + [name[|name| - 1]];
    }
  }

  // ---------------------------------------------------------------------
  // Variable names and usage notes
  // ---------------------------------------------------------------------

  /** What the binder needs from the process: the program path (os.Args[0],
      the name of flag.CommandLine), the environment, the name converter
      `envify` (defined outside this model), and the per-type Set parsers. */
  datatype Inputs = Inputs(program: string, environ: map<string, string>, envify: string -> string, parse: Setter)

  /** envVarName. */
  function EnvVarName(inputs: Inputs, flagName: string): string {
    inputs.envify(Base(inputs.program) + "_" + flagName)
  }

  /** Only the base name of the program matters, not where it was started from. */
  lemma EnvVarNameIgnoresDirectory(inputs: Inputs, dir: string, flagName: string)
    requires inputs.program != [] && forall k :: 0 <= k < |inputs.program| ==> inputs.program[k] != '/'
    ensures EnvVarName(inputs.(program := dir + "/" + inputs.program), flagName) == EnvVarName(inputs, flagName)
  {
    BaseOfPath(dir, inputs.program);
  }

  function EnvNote(envVar: string): string {
    "(env var " + envVar + ")"
  }

  /** The usage text after addEnvInfo: the old text, one space if it was
      non-empty, then the note naming the variable. */
  function WithEnvInfo(usage: string, envVar: string): (r: string)
    ensures |r| == |usage| + (if usage == "" then 0 else 1) + |EnvNote(envVar)|
    ensures r[..|usage|] == usage
    ensures usage != "" ==> r[|usage|] == ' '
    ensures r[|r| - |EnvNote(envVar)|..] == EnvNote(envVar)
  {
    (if usage != "" then usage + " " else "") + EnvNote(envVar)
  }

  /** Recover the original usage from an annotated one. */
  function StripEnvInfo(s: string, envVar: string): Option<string> {
    var note := EnvNote(envVar);
    if |s| < |note| || s[|s| - |note|..] != note then None
    else
      var head := s[..|s| - |note|];
      if head == "" then Some("")
      else if |head| >= 2 && head[|head| - 1] == ' ' then Some(head[..|head| - 1])
      else None
  }

  /** The annotation loses nothing: the original usage can be read back. */
  lemma StripWithEnvInfo(usage: string, envVar: string)
    ensures StripEnvInfo(WithEnvInfo(usage, envVar), envVar) == Some(usage)
  {
    var s := WithEnvInfo(usage, envVar);
    var note := EnvNote(envVar);
    var head := s[..|s| - |note|];
    if usage != "" {
      assert head == usage + " ";
    } else {
      assert head == "";
    }
  }

  /** addEnvInfo: every flag's usage gets its variable's note; nothing else
      changes. */
  function AddEnvInfo(reg: seq<Flag>, inputs: Inputs): (r: seq<Flag>)
    ensures SameBindings(reg, r)
    ensures forall i :: 0 <= i < |r| ==> r[i].value == reg[i].value
    ensures forall i :: 0 <= i < |r| ==>
      StripEnvInfo(r[i].usage, EnvVarName(inputs, reg[i].name)) == Some(reg[i].usage)
  {
    var r := seq(|reg|, i requires 0 <= i < |reg| =>
      reg[i].(usage := WithEnvInfo(reg[i].usage, EnvVarName(inputs, reg[i].name))));
    assert forall i :: 0 <= i < |r| ==> r[i].usage == WithEnvInfo(reg[i].usage, EnvVarName(inputs, reg[i].name));
    forall i | 0 <= i < |r|
      ensures StripEnvInfo(r[i].usage, EnvVarName(inputs, reg[i].name)) == Some(reg[i].usage)
    {
      StripWithEnvInfo(reg[i].usage, EnvVarName(inputs, reg[i].name));
    }
    r
  }

  // ---------------------------------------------------------------------
  // setFromEnv
  // ---------------------------------------------------------------------

  /** `invalid value %q for env var NAME: cause`. */
  datatype EnvError = EnvError(value: string, envVar: string, cause: string)

  function EnvMessage(e: EnvError): string {
    "invalid value " + StrConv.Quote(e.value) + " for env var " + e.envVar + ": " + e.cause
  }

  /** The message quotes the offending text so that it can be read back
      exactly, whatever characters it holds. */
  lemma EnvMessageQuotesValue(e: EnvError)
    ensures var m := EnvMessage(e); var n := |StrConv.Quote(e.value)|;
      14 + n <= |m| && m[..14] == "invalid value "
      && StrConv.Unquote(m[14..14 + n]) == Some(e.value)
      && m[14 + n..] == " for env var " + e.envVar + ": " + e.cause
  {
    var q := StrConv.Quote(e.value);
    var m := EnvMessage(e);
    assert m == "invalid value " + q + (" for env var " + e.envVar + ": " + e.cause);
    assert m[14..14 + |q|] == q;
    StrConv.QuoteRoundTrip(e.value);
  }

  /** The variable this flag reads is set. */
  predicate HasEnv(f: Flag, inputs: Inputs) {
    EnvVarName(inputs, f.name) in inputs.environ
  }

  /** Set on the variable's text, for a flag whose variable is set. */
  function EnvSet(f: Flag, inputs: Inputs): SetResult
    requires HasEnv(f, inputs)
  {
    inputs.parse(f.kind, inputs.environ[EnvVarName(inputs, f.name)])
  }

  /** The flag's variable is set and its text does not parse. */
  predicate EnvFails(f: Flag, inputs: Inputs) {
    HasEnv(f, inputs) && EnvSet(f, inputs).err.Some?
  }

  /** The value the flag holds once its variable has been applied. */
  function EnvApplied(f: Flag, inputs: Inputs): Datum {
    if HasEnv(f, inputs) then EnvSet(f, inputs).stored else f.value
  }

  /** The error reported for a flag whose variable does not parse. */
  function EnvErrorFor(f: Flag, inputs: Inputs): EnvError
    requires EnvFails(f, inputs)
  {
    var name := EnvVarName(inputs, f.name);
    EnvError(inputs.environ[name], name, EnvSet(f, inputs).err.value)
  }

  datatype EnvOutcome = EnvOutcome(flags: seq<Flag>, err: Option<EnvError>)

  /** setFromEnv: visit the flags in registry order, applying each flag's
      variable if it is set; the first Set that fails is reported and no
      later flag is touched. The failing flag keeps whatever its Set stored. */
  function SetFromEnv(reg: seq<Flag>, inputs: Inputs): (r: EnvOutcome)
    ensures ValuesOnly(reg, r.flags)
  {
    if reg == [] then EnvOutcome([], None)
    else
      var f := reg[0];
      var f' := f.(value := EnvApplied(f, inputs));
      if EnvFails(f, inputs) then
        assert ValuesOnly(reg[1..], reg[1..]);
        ValuesOnlyCons(f, reg[1..], reg[1..], f'.value);
        assert [f] + reg[1..] == reg;
        EnvOutcome([f'] + reg[1..], Some(EnvErrorFor(f, inputs)))
      else
        var rest := SetFromEnv(reg[1..], inputs);
        ValuesOnlyCons(f, reg[1..], rest.flags, f'.value);
        assert [f] + reg[1..] == reg;
        EnvOutcome([f'] + rest.flags, rest.err)
  }

  /** Without a failing variable, every flag holds its variable's value, or
      its own value when its variable is unset. */
  lemma {:induction false} SetFromEnvSucceeds(reg: seq<Flag>, inputs: Inputs)
    ensures SetFromEnv(reg, inputs).err.None? <==> forall i :: 0 <= i < |reg| ==> !EnvFails(reg[i], inputs)
    ensures SetFromEnv(reg, inputs).err.None? ==>
      forall i :: 0 <= i < |reg| ==> SetFromEnv(reg, inputs).flags[i].value == EnvApplied(reg[i], inputs)
  {
    if reg != [] {
      var r := SetFromEnv(reg, inputs);
      if !EnvFails(reg[0], inputs) {
        SetFromEnvSucceeds(reg[1..], inputs);
        var rest := SetFromEnv(reg[1..], inputs);
        assert forall i :: 1 <= i < |reg| ==> r.flags[i] == rest.flags[i - 1] && reg[i] == reg[1..][i - 1];
      }
    }
  }

  /** On failure, the error belongs to the first flag whose variable fails. */
  lemma {:induction false} SetFromEnvFailsFirst(reg: seq<Flag>, inputs: Inputs) returns (k: nat)
    requires SetFromEnv(reg, inputs).err.Some?
    ensures k < |reg| && FailsFirstAt(reg, inputs, k, SetFromEnv(reg, inputs))
  {
    if EnvFails(reg[0], inputs) {
      k := 0;
    } else {
      var j := SetFromEnvFailsFirst(reg[1..], inputs);
      FailsFirstCons(reg, inputs, j, SetFromEnv(reg[1..], inputs));
      k := j + 1;
    }
  }

  /** A flag whose variable does not fail, in front of a failing run. */
  lemma FailsFirstCons(reg: seq<Flag>, inputs: Inputs, k: nat, rest: EnvOutcome)
    requires |reg| >= 1 && !EnvFails(reg[0], inputs)
    requires k < |reg| - 1 && |rest.flags| == |reg| - 1 && FailsFirstAt(reg[1..], inputs, k, rest)
    ensures FailsFirstAt(reg, inputs, k + 1,
                         EnvOutcome([reg[0].(value := EnvApplied(reg[0], inputs))] + rest.flags, rest.err))
  {
    var r := EnvOutcome([reg[0].(value := EnvApplied(reg[0], inputs))] + rest.flags, rest.err);
    assert forall i :: 1 <= i < |reg| ==> r.flags[i] == rest.flags[i - 1] && reg[i] == reg[1..][i - 1];
  }

  /** Flag `k` is the first whose variable fails: the flags before it hold
      their environment values, it holds what its Set stored, the error
      names its text and variable, and the flags after it are untouched. */
  predicate FailsFirstAt(reg: seq<Flag>, inputs: Inputs, k: int, r: EnvOutcome)
    requires 0 <= k < |reg| && |r.flags| == |reg|
  {
    && EnvFails(reg[k], inputs)
    && r.err == Some(EnvErrorFor(reg[k], inputs))
    && (forall i :: 0 <= i < k ==> !EnvFails(reg[i], inputs) && r.flags[i].value == EnvApplied(reg[i], inputs))
    && r.flags[k].value == EnvApplied(reg[k], inputs)
    && (forall i :: k < i < |reg| ==> r.flags[i] == reg[i])
  }
}
