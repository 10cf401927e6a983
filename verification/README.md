# conf: flag binding and redaction, modelled in Dafny

This project models the core of `conf`, a small Go library for process
configuration. The model covers its two struct-walking algorithms.

- **The flag binder** (`Load`, `load.go`). It walks a configuration struct
  and declares one command-line flag per eligible leaf field. A flag is named
  after the field, or after its `conf` tag, with the parent's name prefixed
  and joined by `-`. Fields tagged `conf:"-"`, unexported fields and
  unsupported types get no flag. The binder appends `(env var NAME)` to every
  usage text. It then applies the environment variable of each flag, visiting
  flags in name order and stopping at the first value that does not parse.
  Last, it parses the command line. A flag is bound to the address of its
  field, so the values end up back in the struct.
- **The redactor** (`Redact`, `redact.go`). It builds a deep copy of a struct
  of the same type. A field whose `redact` tag parses as a true boolean keeps
  its zero value, and so does any unexported field. A tag that is not a
  boolean literal, or a non-struct argument, is a panic.

Go's panics become `Err` results. The reflection values are a datatype:
`Value = StructValue(fields) | Scalar(type, datum)`. Each `Field` carries its
name, its tags, whether it is exported, whether it is embedded, and its
value. The global `flag.CommandLine` becomes a registry `seq<Flag>`, kept sorted by name because
`VisitAll` visits flags in lexicographic order. A flag's `loc` is the field
path of the leaf it is bound to. Writing through that pointer is `UpdateAt`,
and `WriteBack` does it for all flags.

Modules, one per file:

| file | module | models |
|---|---|---|
| `wrappers.dfy` | `Wrappers` | `Option`, `Result` |
| `go_values.dfy` | `GoValues` | reflect kinds, struct tags, zero values, field paths |
| `strconv.dfy` | `StrConv` | `strconv.ParseBool`; `%q` quoting as far as the messages need it |
| `redact.dfy` | `Redactor` | `Redact`, `redact`, `shouldRedact` |
| `redact_examples.dfy` | `RedactExamples` | the redactor's tests as concrete cases |
| `flag_set.dfy` | `FlagSet` | the flag registry: ordered, duplicate names refused |
| `walk.dfy` | `Walk` | `addFlags` |
| `env.dfy` | `EnvBinding` | `filepath.Base`, `envVarName`, `addEnvInfo`, `setFromEnv` |
| `load.dfy` | `Loader` | `Load`: the stages, the command-line pass, writing back |
| `load_examples.dfy` | `LoadExamples` | flag naming and a name collision as concrete cases |

Two behaviours of the Go code are easy to miss:

- **Boolean tags.** `shouldRedact` calls `strconv.ParseBool`, which accepts
  exactly `1`, `t`, `T`, `TRUE`, `true`, `True` and the six matching false
  spellings. Mixed case such as `tRuE` is refused, so it panics
  (`StrConv.ParseBoolExactlyItsSpellings`).
- **Flag names.** Nothing in `addFlags` keeps flag names unique. A `conf`
  tag can spell a nested field's path: a field `A.B` and a field tagged
  `conf:"A-B"` both ask for flag `A-B`, and the flag package panics with a
  `flag redefined` message naming `A-B`. The model returns
  `Err(FlagRedefined(name))` (`LoadExamples.ExampleCollision`).
  `Loader.LoadRedefined` states exactly when this happens and that the
  panic names the first flag, in walk order, whose name is already taken.

## Model

| member | source | states |
|---|---|---|
| GoValues.Zero | redact.go:38 | the fresh value `reflect.New` allocates has the input's type, and every leaf below it is its kind's zero |
| GoValues.ZeroIsCanonical | redact.go:38 | a value is all zeros exactly when it equals the zero value of its own type |
| GoValues.ZeroDependsOnlyOnType | redact.go:38 | two values of the same type have the same zero value |
| GoValues.ReadAfterWrite | load.go:90-106 | after a store through a flag's pointer, the leaf holds the stored datum and keeps its static type |
| GoValues.WriteFrame | load.go:90-106 | a store through one leaf's pointer leaves every other leaf unchanged |
| StrConv.ParseBool | redact.go:56 | an accepted tag has one to five characters; it is true exactly when it starts with `1`, `t` or `T`; after the first character it is all lower or all upper case |
| StrConv.ParseBoolAcceptsItsSpellings | redact.go:56 | `true`/`false` in lower, upper and title case, `t`/`f`/`T`/`F` and `1`/`0` all parse to their boolean |
| StrConv.ParseBoolExactlyItsSpellings | redact.go:56 | a string parses to `b` if and only if it is one of the six spellings of `b` |
| StrConv.ParseBoolRefusesTheRest | redact.go:56-59 | any string outside the twelve spellings is refused |
| StrConv.ParseBoolRejectsOtherSpellings | redact.go:56-59 | mixed case, `yes`, `notbool`, the empty string and a leading space are refused |
| StrConv.QuotePlain | load.go:133 | `%q` of text without quotes or backslashes is that text between double quotes |
| StrConv.UnescapeEscape | load.go:133 | the escaping inside `%q` loses nothing: unescaping recovers the text |
| StrConv.QuoteRoundTrip | load.go:133 | unquoting a `%q`-quoted value gives back the value |
| Redactor.ShouldRedact | redact.go:50-62 | a missing tag means keep; a present tag panics exactly when ParseBool refuses it, naming the tag; the answer is true exactly when the tag parses as true |
| Redactor.RedactField | redact.go:39-45 | a field keeps its name, tags and type; a truthy-tagged or unexported field becomes its zero; a kept scalar is copied; a kept struct is redacted recursively; a bad tag is the field's error |
| Redactor.RedactFields | redact.go:39-45 | the loop succeeds exactly when every field does, and then gives each field's result in order; on failure the error is that of the first failing field |
| Redactor.RedactValue | redact.go:31-48 | a non-struct is returned as it is; a redacted struct has the input's type and is the field-by-field result; a failure happens only on a struct, is always a bad-tag panic, and is that of the first field whose redaction fails, every earlier field redacting |
| Redactor.RedactFailsAtFirstBadTag | redact.go:39-59 | a failing redaction reports the first tag, in the order redact reads them (fields in index order, descending into kept structs), that does not parse, and gives the path to it |
| Redactor.FirstBadTagFails | redact.go:39-59 | conversely, if the first tag read that does not parse is `t`, redaction panics with exactly `t` |
| Redactor.Redact | redact.go:22-29 | a nil argument panics with kind `invalid`; any other non-struct panics, naming its kind, which is never `struct`; a struct is redacted |
| Redactor.RedactOkIffTagsValid | redact.go:39-59 | redaction panics exactly when a tag it reads does not parse; tags under a zeroed field are never read |
| Redactor.RedactIdempotent | redact.go:13-14 | redacting a redacted copy gives the same copy |
| Redactor.RedactValueFromFields | redact.go:38-47 | a struct whose every field redacts to the matching field of a list redacts to the struct of that list |
| Redactor.ZeroCopiedOrZeroed | redact.go:38 | a zero value holds no data besides zeros |
| Redactor.RedactCopiesOrZeroes | redact.go:13-14 | every leaf of the copy is the input's leaf at the same place or that leaf's zero: the copy holds no data the input did not hold |
| Redactor.RedactPreservesWellTyped | redact.go:38-47 | if every datum of the input fits its kind, every datum of the copy does too |
| Redactor.ZeroWellTyped | redact.go:38 | every datum of a zero value fits its kind |
| Redactor.NotStructMessage | redact.go:23-25 | the non-struct panic reads `conf: Redact called on <kind> (only structs are acceptable)`; the kind is never `struct`, and is `invalid` for nil |
| RedactExamples.ExampleRedact | redact_test.go:11-30 | `{jdoe iloveyou [1 2 3] [4 5 6]}` with tags `true`, `false`, `1` redacts to `{jdoe  [1 2 3] []}` |
| RedactExamples.InvalidTagPanics | redact_test.go:118-131 | a `redact:"notbool"` tag panics, naming `notbool` |
| RedactExamples.BadTagMessageShape | redact.go:58 | the bad-tag panic message for a tag with nothing to escape, word for word |
| RedactExamples.InvalidTagMessage | redact_test.go:121 | the message for `notbool`, word for word |
| RedactExamples.NilPanics | redact.go:23-25 | `Redact(nil)` panics with `conf: Redact called on invalid (only structs are acceptable)` |
| RedactExamples.TaggedField | redact.go:40-44 | an exported field whose tag parses to a boolean is zeroed if the boolean is true and copied otherwise |
| RedactExamples.InvalidKindPanics | redact_test.go:133-142 | `Redact` on a pointer to a struct panics with kind `ptr` |
| RedactExamples.InvalidKindMessage | redact_test.go:136 | the message for a pointer, word for word |
| RedactExamples.BadTagOnUnexportedFieldPanics | redact.go:40 | the tag is read before exportedness is checked, so a bad tag on an unexported field still panics |
| RedactExamples.BadTagUnderRedactedFieldIgnored | redact.go:40-44 | a bad tag below a truthy-tagged struct field is never read; the whole field becomes zero |
| RedactExamples.TestRedactSubConfig | redact_test.go:98-111 | of fields tagged `true`, `t`, `false`, `f` and untagged, only the first two are zeroed |
| RedactExamples.KeptStructRedactedInside | redact_test.go:59 | an untagged struct field is copied with its own tagged fields redacted |
| RedactExamples.DroppedStructZeroed | redact_test.go:60 | a struct field tagged `true` becomes all zeros |
| RedactExamples.HiddenFieldZeroed | redact_test.go:62 | an unexported field is zeroed |
| RedactExamples.TestRedactNested | redact_test.go:59-62 | TestRedact's `SubConfig`, `SubConfigRedact` and `unexported` fields together in one struct redact to the expected values; the test's top-level scalar fields are not part of this case |
| FlagSet.Define | load.go:90-107 | registering fails with "redefined" exactly when the name is taken; otherwise the registry gains exactly that flag and stays sorted by name |
| FlagSet.DefineAll | load.go:51 | a successful walk's registry holds exactly the declared flags, sorted by name |
| FlagSet.DefineAllRedefined | load.go:90-107 | registration succeeds only if no name repeats, and a failure names the first flag whose name was already taken |
| FlagSet.DefineAllNamesDistinct | load.go:114 | a successful registry has one flag per declaration and no two flags share a name |
| FlagSet.Find | load.go:59 | a name is found exactly when it is registered, at a position holding that name |
| Walk.FlagTypeOf | load.go:82-107 | a flag is declared for `time.Duration` and for the predeclared bool, int, int64, uint, uint64, float64 and string; a named type such as `type Mode string` passes the kind gate but gets no flag |
| Walk.FlagTypeOfExactly | load.go:90-107 | each flag type comes from exactly one Go type: `*bool` gives a bool flag, `*time.Duration` a duration flag, and so on for the eight cases |
| Walk.Qualify | load.go:78-80 | a top-level name is kept; a nested name is the parent's name, `-`, then the field's own |
| Walk.DeclAtLocation | load.go:90-106 | each flag is bound to the field it was declared for |
| Walk.DeclAtDefault | load.go:92-106 | each flag's default is the field's value at the time of the walk, and its type is the field's |
| Walk.AddFlagsSound | load.go:62-111 | every declaration the walk emits is that of an eligible leaf |
| Walk.AddFlagsComplete | load.go:62-111 | every eligible leaf gets a declaration |
| Walk.AddFlagsDistinct | load.go:64-109 | no two declarations are bound to the same field |
| Walk.AddFlagsInWalkOrder | load.go:62-111 | declarations come depth first, fields in index order: of any two, the earlier one's field path is lexicographically smaller |
| Walk.NoFlagWithoutDecl | load.go:62-111 | a field that is not eligible gets no flag bound to it |
| Walk.DeclAtPathFields | load.go:69-88 | every field on the way to a flag's leaf is not tagged `conf:"-"` and is exported or embedded, and the leaf itself is exported |
| Walk.SkippedSubtreeContributesNothing | load.go:69-71 | no flag is bound at or below a field tagged `conf:"-"` |
| Walk.UnexportedSubtreeContributesNothing | load.go:83-88 | no flag is bound at or below an unexported field that is not embedded, even through exported fields further down |
| Walk.UnexportedFieldGetsNoFlag | load.go:86-88 | an unexported field, embedded or not, never gets a flag of its own |
| Walk.DeclName | load.go:73-80 | a flag's name is the names along its path, each the `conf` tag or the field name, joined by `-` |
| EnvBinding.Base | load.go:142 | the base name is never empty and holds no slash unless it is `/` itself |
| EnvBinding.BaseOfPath | load.go:142 | the base of `dir/name` is `name` |
| EnvBinding.BaseIgnoresTrailingSlash | load.go:142 | a trailing slash does not change the base |
| EnvBinding.EnvVarNameIgnoresDirectory | load.go:141-143 | the variable a flag reads depends on the program's base name, not the directory it was started from |
| EnvBinding.WithEnvInfo | load.go:115-119 | the usage keeps its text, adds a space only if it was non-empty, and ends with `(env var NAME)` |
| EnvBinding.StripWithEnvInfo | load.go:113-121 | the original usage can be read back from the annotated one |
| EnvBinding.AddEnvInfo | load.go:113-121 | annotation changes no name, type, default, value or binding, and each annotated usage strips back to the original for that flag's variable |
| EnvBinding.EnvMessageQuotesValue | load.go:133 | the environment error message quotes the offending text so that it can be read back exactly, followed by the variable's name and the cause |
| EnvBinding.SetFromEnv | load.go:123-139 | the environment pass changes flag values only |
| EnvBinding.SetFromEnvSucceeds | load.go:125-136 | the pass succeeds exactly when no set variable fails to parse, and then each flag holds its variable's parse or its old value |
| EnvBinding.SetFromEnvFailsFirst | load.go:126-134 | a failure reports the first failing flag in name order; flags before it are applied, and a failing Set still stores its result |
| Loader.LastArg | load.go:59 | the value of the last occurrence of a flag on the command line, or none exactly when it does not occur |
| Loader.ApplyArgs | load.go:59 | command-line parsing changes no name, type, default, binding or usage |
| Loader.ApplyArgsFails | load.go:59 | parsing fails exactly when some occurrence names an undefined flag or does not parse |
| Loader.ApplyArgsLastWins | load.go:59 | after parsing, each flag holds the parse of its last occurrence, or its old value if it does not occur |
| Loader.WriteBack | load.go:90-106 | writing flag values back keeps the struct's type |
| Loader.WriteBackReads | load.go:90-106 | each bound leaf holds its flag's value with its own static type, and every unbound leaf is unchanged |
| Loader.StagesKeepBindings | load.go:52-59 | after annotation, the environment and the command line, each flag still binds the same field, with the same name, type and default, and its original usage |
| Loader.LoadStages | load.go:50-60 | a successful load is: register the walk's declarations, annotate, apply the environment without error, parse the command line, write back |
| Loader.LoadBindings | load.go:41-52 | the flags are one per eligible leaf of the struct and no more, with unique names, bound to distinct leaves |
| Loader.LoadPrecedence | load.go:50-60 | each flag ends with its last command-line value, else its environment variable's value, else the field's original value |
| Loader.LoadConfig | load.go:39-59 | in the loaded struct each bound leaf holds its flag's value and every other leaf is unchanged |
| Loader.LoadEnvFailure | load.go:53-57 | an environment failure happens before the command line is read, whatever it holds, and reports the first failing flag in name order |
| Loader.FirstRepeatedNameUnique | load.go:90-107 | the first declaration in walk order whose name an earlier one took is unique, so the reported name is determined |
| Loader.RegisterRedefined | load.go:90-107 | registration fails exactly when two declarations share a name, and the error names the first declaration in walk order whose name an earlier one took |
| Loader.LoadRedefined | load.go:51 | Load panics with "flag redefined" exactly when the walk declares two flags with the same name, and the panic names the first flag in walk order whose name was already taken; every flag declared before it lies earlier in the depth-first field order |
| LoadExamples.HostFlag | load.go:78-80 | a field `Host` inside `DB` with a usage tag becomes `DB-Host`, bound to its field and default |
| LoadExamples.PortFlag | load.go:97-98 | an int field becomes an int flag named `DB-Port` |
| LoadExamples.DBFlags | load.go:83-84 | a struct field contributes its fields' flags under its own name |
| LoadExamples.PassFlag | load.go:74-76 | a `conf:"pass"` tag renames the flag to `pass` |
| LoadExamples.NoOtherFlags | load.go:69-107 | `conf:"-"`, an unexported field and a named string type get no flag |
| LoadExamples.ExampleDeclarations | load.go:62-111 | the whole example struct declares exactly `DB-Host`, `DB-Port` and `pass`, in field order |
| LoadExamples.ClashDecls | load.go:73-84 | a nested `A.B` and a field tagged `conf:"A-B"` both declare `A-B` |
| LoadExamples.ClashRegister | load.go:90-107 | registering those two declarations fails, naming `A-B` |
| LoadExamples.ExampleCollision | load.go:50-51 | Load of that struct panics with a `flag redefined` message naming `A-B`, whatever the environment and arguments |
| LoadExamples.ExampleFirstRepeat | load.go:90-107 | declarations named X, Y, Y, X fail on Y, the first name taken again, not on X |
| LoadExamples.InnerFlags | load.go:83-98 | inside a struct reached through a settable path an exported int field gets a flag; through a read-only path it gets none |
| LoadExamples.ExampleEmbedded | load.go:82-98 | `struct{ inner }` with `inner` holding an exported `X` declares `inner-X`; the named field `struct{ inner inner }` declares nothing |
| LoadExamples.ExampleEnvFailure | load.go:53-57 | a struct with an int field `Port`, with `APP_PORT=abc`, a name converter giving `APP_PORT` and a parser that refuses `abc`, fails in the environment pass whatever the arguments, reporting `abc`, `APP_PORT` and the parser's error |
| LoadExamples.ExampleEnvMessage | load.go:133 | `APP_PORT=abc` rejected by an int flag reads `invalid value "abc" for env var APP_PORT: <cause>` |

## Left out

- Reflection itself. Struct values are a datatype, and settability is computed as Go's `reflect` does it. A field reached through an unexported field that is not embedded is read-only. An embedded field passes settability on to the fields inside it even when its type is unexported, so their exported fields still get flags. A leaf gets a flag only if it is exported itself. In the redactor the output is fresh at every level, so there only the field's own exportedness matters.
- `Load`'s pointer argument. The model takes the pointed-to struct. An untyped `nil` or a non-pointer argument makes `reflect.Value.Elem` panic at load.go:51, before any flag is declared. A typed nil pointer gives the zero `reflect.Value`, whose kind is not struct: `addFlags` declares nothing and `Load` goes on to the environment pass and `flag.Parse`. Neither case is modelled.
- The flag package's own work: argument syntax (`-x`, `--x=v`, boolean shorthand, the `--` terminator), `-help`, printing `Usage()` and exiting on error. The command line is a list of name/value occurrences. An unknown name or a value that does not parse is an error result.
- The per-type `Set` parsers (`strconv` for the numbers and `time.ParseDuration`). They are one abstract function parameter. Go's `Set` stores its result even when it reports an error, and the model keeps that.
- `envify`. This is the name converter used by `envVarName`. `envify` is defined outside load.go and is not part of this model, so it is a parameter.
- The flag package's checks on flag names in newer Go versions (a leading `-` or an `=`). The names this library builds never contain `=` unless a `conf` tag does.
- `filepath.Base` is modelled with Unix separators only. Windows volume names and `\` are left out.
- `StrConv.Quote` escapes only `"` and `\`. Go's `%q` also escapes control and non-printable characters. Two messages quote text the user supplies: the environment error (`EnvBinding.EnvMessage`, load.go:133) quotes the variable's value, and the bad-tag panic (`Redactor.Message`, redact.go:58) quotes the tag. For text holding such characters these messages differ from Go's: for `APP_PORT` set to `a`, tab, `b`, Go prints `"a\tb"` and the model puts a raw tab between the quotes.
- The process-global state of `flag.CommandLine` and concurrent use. Each `Load` starts from an empty registry.
- Reference kinds (maps, slices, pointers, channels, funcs, interfaces) are opaque handles. The redactor's copy shares them with the input, as Go's does. What they point to is not modelled.
- Floating-point values are opaque bit patterns. The model never computes with them.

