/** The part of Go's flag.FlagSet the binder relies on: a registry of typed
    flags, each bound to a location in the configuration struct, visited in
    lexicographic name order. Argument syntax and help output are not
    modelled; `Set` is a parameter. */
module FlagSet {
  import opened Wrappers
  import opened GoValues

  /** The eight flag constructors addFlags calls (BoolVar, DurationVar, ...). */
  datatype FlagType =
    | BoolFlag | DurationFlag | Float64Flag | IntFlag | Int64Flag | StringFlag | UintFlag | Uint64Flag

  /** flag.Flag, plus the field its Value points at (`loc`, field indices
      from the root of the configuration struct). */
  datatype Flag = Flag(name: string, kind: FlagType, usage: string, defValue: Datum, value: Datum, loc: seq<nat>)

  /** What a flag.Value's Set leaves behind: Go's numeric and boolean Set
      methods store the parser's result even when they report an error. */
  datatype SetResult = SetResult(stored: Datum, err: Option<string>)

  /** The per-type Set parsers, left abstract. */
  type Setter = (FlagType, string) -> SetResult

  datatype FlagError = Redefined(name: string)

  // ---------------------------------------------------------------------
  // Lexicographic order on names (Go's `<` on strings)
  // ---------------------------------------------------------------------

  predicate Less(a: string, b: string) {
    if a == [] then b != []
    else if b == [] then false
    else if a[0] != b[0] then a[0] < b[0]
    else Less(a[1..], b[1..])
  }

  lemma {:induction false} LessIrreflexive(a: string)
    ensures !Less(a, a)
  {
    if a != [] {
      LessIrreflexive(a[1..]);
    }
  }

  lemma {:induction false} LessTotal(a: string, b: string)
    requires a != b
    ensures Less(a, b) || Less(b, a)
  {
    if a != [] && b != [] && a[0] == b[0] {
      assert a == [a[0]] + a[1..] && b == [b[0]] + b[1..];
      LessTotal(a[1..], b[1..]);
    }
  }

  lemma {:induction false} LessTransitive(a: string, b: string, c: string)
    requires Less(a, b) && Less(b, c)
    ensures Less(a, c)
  {
    if a != [] && b != [] && c != [] && a[0] == b[0] && b[0] == c[0] {
      LessTransitive(a[1..], b[1..], c[1..]);
    }
  }

  /** The registry's visiting order: strictly increasing names. */
  predicate Sorted(reg: seq<Flag>) {
    forall i, j :: 0 <= i < j < |reg| ==> Less(reg[i].name, reg[j].name)
  }

  lemma SortedNamesDistinct(reg: seq<Flag>, i: int, j: int)
    requires Sorted(reg) && 0 <= i < |reg| && 0 <= j < |reg| && i != j
    ensures reg[i].name != reg[j].name
  {
    if i < j {
      LessIrreflexive(reg[i].name);
    } else {
      LessIrreflexive(reg[j].name);
    }
  }

  /** Whether a flag of this name is defined. */
  predicate Defined(reg: seq<Flag>, name: string) {
    exists i :: 0 <= i < |reg| && reg[i].name == name
  }

  /** A flag below every name of a sorted registry can go in front. */
  lemma SortedCons(x: Flag, rest: seq<Flag>)
    requires Sorted(rest)
    requires forall k :: 0 <= k < |rest| ==> Less(x.name, rest[k].name)
    ensures Sorted([x] + rest)
  {
    var r := [x] + rest;
    forall i, j | 0 <= i < j < |r| ensures Less(r[i].name, r[j].name) {
      if i == 0 {
        assert r[j] == rest[j - 1];
      } else {
        assert r[i] == rest[i - 1] && r[j] == rest[j - 1];
      }
    }
  }

  /** A name below the first name of a sorted registry is below all of them. */
  lemma BelowFirst(name: string, reg: seq<Flag>)
    requires Sorted(reg) && reg != [] && Less(name, reg[0].name)
    ensures forall k :: 0 <= k < |reg| ==> Less(name, reg[k].name)
    ensures !Defined(reg, name)
  {
    forall k | 0 < k < |reg| ensures Less(name, reg[k].name) {
      LessTransitive(name, reg[0].name, reg[k].name);
    }
    forall k | 0 <= k < |reg| ensures reg[k].name != name {
      LessIrreflexive(name);
    }
  }

  lemma DefinedTail(reg: seq<Flag>, name: string)
    requires reg != [] && reg[0].name != name
    ensures Defined(reg, name) <==> Defined(reg[1..], name)
  {
    if Defined(reg, name) {
      var i :| 0 <= i < |reg| && reg[i].name == name;
      assert reg[1..][i - 1].name == name;
    }
    if Defined(reg[1..], name) {
      var i :| 0 <= i < |reg[1..]| && reg[1..][i].name == name;
      assert reg[i + 1].name == name;
    }
  }

  /** Everything inserted after the head of a sorted registry sorts after it. */
  lemma InsertedAfterHead(head: Flag, rest: seq<Flag>, f: Flag, tail: seq<Flag>)
    requires Sorted([head] + rest) && Less(head.name, f.name)
    requires multiset(tail) == multiset(rest) + multiset{f}
    ensures forall k :: 0 <= k < |tail| ==> Less(head.name, tail[k].name)
  {
    forall k | 0 <= k < |tail| ensures Less(head.name, tail[k].name) {
      assert tail[k] in multiset(tail);
      if tail[k] != f {
        assert tail[k] in multiset(rest);
        var m :| 0 <= m < |rest| && rest[m] == tail[k];
        var whole := [head] + rest;
        assert whole[0] == head && whole[m + 1] == tail[k];
        assert Less(whole[0].name, whole[m + 1].name);
      }
    }
  }

  /** FlagSet.Var: add a flag; a second flag of the same name is refused
      ("flag redefined"). The new flag takes its place in name order. */
  function Define(reg: seq<Flag>, f: Flag): (r: Result<seq<Flag>, FlagError>)
    requires Sorted(reg)
    ensures r.Err? <==> Defined(reg, f.name)
    ensures r.Err? ==> r.error == Redefined(f.name)
    ensures r.Ok? ==> Sorted(r.value) && multiset(r.value) == multiset(reg) + multiset{f}
  {
    if reg == [] then Ok([f])
    else if reg[0].name == f.name then Err(Redefined(f.name))
    else if Less(f.name, reg[0].name) then
      BelowFirst(f.name, reg);
      SortedCons(f, reg);
      Ok([f] + reg)
    else
      DefinedTail(reg, f.name);
      match Define(reg[1..], f)
      case Err(e) => Err(e)
      case Ok(tail) =>
        LessTotal(f.name, reg[0].name);
        assert reg == [reg[0]] + reg[1..];
        InsertedAfterHead(reg[0], reg[1..], f, tail);
        SortedCons(reg[0], tail);
        Ok([reg[0]] + tail)
  }

  /** Defining a sequence of flags in order, stopping at the first clash. */
  function DefineAll(reg: seq<Flag>, fs: seq<Flag>): (r: Result<seq<Flag>, FlagError>)
    requires Sorted(reg)
    ensures r.Ok? ==> Sorted(r.value) && multiset(r.value) == multiset(reg) + multiset(fs)
    decreases |fs|
  {
    if fs == [] then Ok(reg)
    else
      match Define(reg, fs[0])
      case Err(e) => Err(e)
      case Ok(reg') =>
        var r := DefineAll(reg', fs[1..]);
        assert fs == [fs[0]] + fs[1..];
        r
  }

  /** `fs[j]` repeats a name already in `reg` or earlier in `fs`. */
  predicate Repeats(reg: seq<Flag>, fs: seq<Flag>, j: int)
    requires 0 <= j < |fs|
  {
    Defined(reg, fs[j].name) || exists i :: 0 <= i < j && fs[i].name == fs[j].name
  }

  lemma DefinedSameMultiset(a: seq<Flag>, b: seq<Flag>, f: Flag, name: string)
    requires multiset(b) == multiset(a) + multiset{f}
    ensures Defined(b, name) <==> Defined(a, name) || f.name == name
  {
    if Defined(b, name) {
      var i :| 0 <= i < |b| && b[i].name == name;
      assert b[i] in multiset(b);
      if b[i] != f {
        assert b[i] in multiset(a);
        assert b[i] in a;
      }
    }
    if Defined(a, name) {
      var i :| 0 <= i < |a| && a[i].name == name;
      assert a[i] in multiset(b);
      assert a[i] in b;
    }
    if f.name == name {
      assert f in multiset(b);
      assert f in b;
    }
  }

  /** After `fs[0]` is registered, the rest repeats a name exactly where
      the whole did. */
  lemma RepeatsShift(reg: seq<Flag>, reg': seq<Flag>, fs: seq<Flag>, j: nat)
    requires |fs| >= 1 && j < |fs| - 1
    requires multiset(reg') == multiset(reg) + multiset{fs[0]}
    ensures Repeats(reg', fs[1..], j) <==> Repeats(reg, fs, j + 1)
  {
    var tail := fs[1..];
    DefinedSameMultiset(reg, reg', fs[0], tail[j].name);
    assert tail[j] == fs[j + 1];
    if exists i :: 0 <= i < j + 1 && fs[i].name == fs[j + 1].name {
      var i :| 0 <= i < j + 1 && fs[i].name == fs[j + 1].name;
      if i > 0 {
        assert tail[i - 1] == fs[i];
      }
    }
    if exists i :: 0 <= i < j && tail[i].name == tail[j].name {
      var i :| 0 <= i < j && tail[i].name == tail[j].name;
      assert tail[i] == fs[i + 1];
    }
  }

  /** No repeat before `k + 1` in the whole when none before `k` in the rest. */
  lemma NoRepeatBefore(reg: seq<Flag>, reg': seq<Flag>, fs: seq<Flag>, k: nat)
    requires |fs| >= 1 && k <= |fs| - 1
    requires multiset(reg') == multiset(reg) + multiset{fs[0]}
    requires !Repeats(reg, fs, 0)
    requires forall i :: 0 <= i < k ==> !Repeats(reg', fs[1..], i)
    ensures forall i :: 0 <= i < k + 1 ==> !Repeats(reg, fs, i)
  {
    forall i | 1 <= i < k + 1 ensures !Repeats(reg, fs, i) {
      RepeatsShift(reg, reg', fs, i - 1);
    }
  }

  /** The first index at which `fs` repeats a name, if any. */
  ghost predicate FirstRepeat(reg: seq<Flag>, fs: seq<Flag>, j: int) {
    0 <= j < |fs| && Repeats(reg, fs, j) && forall i :: 0 <= i < j ==> !Repeats(reg, fs, i)
  }

  /** Registering a first flag that is new. */
  lemma DefineStep(reg: seq<Flag>, fs: seq<Flag>) returns (reg': seq<Flag>)
    requires Sorted(reg) && |fs| >= 1 && !Defined(reg, fs[0].name)
    ensures Sorted(reg') && multiset(reg') == multiset(reg) + multiset{fs[0]}
    ensures DefineAll(reg, fs) == DefineAll(reg', fs[1..])
  {
    reg' := Define(reg, fs[0]).value;
  }

  /** Registering fails exactly at the first flag whose name is already
      taken, and the error names that flag; `j` is that flag's index. */
  lemma {:induction false} DefineAllRedefined(reg: seq<Flag>, fs: seq<Flag>) returns (j: int)
    requires Sorted(reg)
    ensures DefineAll(reg, fs).Ok? ==> forall i :: 0 <= i < |fs| ==> !Repeats(reg, fs, i)
    ensures DefineAll(reg, fs).Err? ==> FirstRepeat(reg, fs, j) && DefineAll(reg, fs).error == Redefined(fs[j].name)
    decreases |fs|
  {
    j := -1;
    if fs != [] {
      if Defined(reg, fs[0].name) {
        assert DefineAll(reg, fs) == Err(Redefined(fs[0].name));
        j := 0;
      } else {
        var reg' := DefineStep(reg, fs);
        var k := DefineAllRedefined(reg', fs[1..]);
        assert !Repeats(reg, fs, 0);
        if DefineAll(reg, fs).Ok? {
          NoRepeatBefore(reg, reg', fs, |fs| - 1);
        } else {
          RepeatsShift(reg, reg', fs, k);
          NoRepeatBefore(reg, reg', fs, k);
          j := k + 1;
        }
      }
    }
  }

  /** Successful registration holds each flag exactly once, and no two
      flags share a name. */
  lemma DefineAllNamesDistinct(fs: seq<Flag>)
    requires DefineAll([], fs).Ok?
    ensures var reg := DefineAll([], fs).value;
      |reg| == |fs|
      && (forall x :: x in reg <==> x in fs)
      && forall i, j :: 0 <= i < |reg| && 0 <= j < |reg| && i != j ==> reg[i].name != reg[j].name
  {
    var reg := DefineAll([], fs).value;
    assert multiset(reg) == multiset(fs);
    assert |reg| == |multiset(reg)| == |multiset(fs)| == |fs|;
    forall x ensures x in reg <==> x in fs {
      assert x in reg <==> x in multiset(reg);
      assert x in fs <==> x in multiset(fs);
    }
    forall i, j | 0 <= i < |reg| && 0 <= j < |reg| && i != j ensures reg[i].name != reg[j].name {
      SortedNamesDistinct(reg, i, j);
    }
  }

  /** The position of the flag with the given name, if any (FlagSet.Lookup). */
  function Find(reg: seq<Flag>, name: string): (r: Option<nat>)
    ensures r.Some? ==> r.value < |reg| && reg[r.value].name == name
    ensures r.None? <==> !Defined(reg, name)
  {
    if reg == [] then None
    else if reg[0].name == name then Some(0)
    else
      match Find(reg[1..], name)
      case Some(k) => Some(k + 1)
      case None =>
        assert !Defined(reg, name) by {
          forall i | 0 <= i < |reg| ensures reg[i].name != name {
            if i > 0 { assert reg[1..][i - 1] == reg[i]; }
          }
        }
        None
  }

  /** Two registries that differ only in flag values and usages. */
  predicate SameBindings(a: seq<Flag>, b: seq<Flag>) {
    |a| == |b| &&
    forall i :: 0 <= i < |a| ==>
      a[i].name == b[i].name && a[i].kind == b[i].kind && a[i].defValue == b[i].defValue && a[i].loc == b[i].loc
  }

  /** Only the values may differ: bindings and usages agree. */
  predicate ValuesOnly(a: seq<Flag>, b: seq<Flag>) {
    SameBindings(a, b) && forall i :: 0 <= i < |a| ==> a[i].usage == b[i].usage
  }

  lemma ValuesOnlyCons(x: Flag, a: seq<Flag>, b: seq<Flag>, d: Datum)
    requires ValuesOnly(a, b)
    ensures ValuesOnly([x] + a, [x.(value := d)] + b)
  {
    var l, r := [x] + a, [x.(value := d)] + b;
    assert forall i :: 1 <= i < |l| ==> l[i] == a[i - 1] && r[i] == b[i - 1];
  }

  lemma SameBindingsTrans(a: seq<Flag>, b: seq<Flag>, c: seq<Flag>)
    requires SameBindings(a, b) && SameBindings(b, c)
    ensures SameBindings(a, c)
  {
  }
}
