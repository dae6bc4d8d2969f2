/**
 * The merge step of `_getForce`: the candidate files are visited in
 * precedence order and their variables folded into one result, where the
 * first file to define a key wins and a key of the baseline snapshot (the
 * environment as it was before the loader first ran) is never taken.
 */
module EnvMerge {
  import opened Wrappers

  /** An environment mapping: variable name to value. */
  type Env = map<string, string>

  /** What loading one existing candidate file yields (dotenv parsing, then variable expansion). */
  datatype FileOutcome =
    | NoParsed                      // the load returned no parsed variables
    | Parsed(vars: Env)             // the file's variables, expanded
    | ThrewError(message: string)   // the load threw an `Error`: reported, then skipped
    | ThrewNonError                 // the load threw something else: rethrown

  /** The files at the project root by candidate name; a name that is not a key does not exist. */
  type Disk = map<string, FileOutcome>

  /** Why `_getForce` throws instead of returning a result. */
  datatype LoadError =
    | InvalidMode(mode: string)
    | Rethrown(file: string)

  /** The variables candidate `f` contributes: only an existing file that parsed. */
  function Contribution(disk: Disk, f: string): Option<Env>
  {
    if f in disk && disk[f].Parsed? then Some(disk[f].vars) else None
  }

  /** Loading candidate `f` throws a value that is not an `Error`. */
  predicate Rethrows(disk: Disk, f: string)
  {
    f in disk && disk[f].ThrewNonError?
  }

  /** Candidate `f` contributes a value for `key`. */
  predicate Defines(disk: Disk, f: string, key: string)
  {
    Contribution(disk, f).Some? && key in Contribution(disk, f).value
  }

  /**
   * One file's variables folded into the accumulated result: a key is taken
   * unless the result already has it or the baseline does.
   */
  function Absorb(acc: Env, vars: Env, baseline: Env): (r: Env)
    ensures r.Keys == acc.Keys + (vars.Keys - baseline.Keys)
    ensures forall k :: k in acc ==> r[k] == acc[k]
    ensures forall k :: k in r && k !in acc ==> r[k] == vars[k]
  {
    acc + map k | k in vars && k !in acc && k !in baseline :: vars[k]
  }

  /**
   * The outcome of visiting `files` in order, one file at a time, as the
   * loop does: a rethrow ends the visit, every other file is folded in or skipped.
   */
  function MergeOutcome(disk: Disk, files: seq<string>, baseline: Env): (r: Result<Env, LoadError>)
    ensures r.Failure? ==> r.error.Rethrown? && r.error.file in files && Rethrows(disk, r.error.file)
    decreases |files|
  {
    if files == [] then Success(map[])
    else
      var last := files[|files| - 1];
      match MergeOutcome(disk, files[..|files| - 1], baseline)
      case Failure(e) => Failure(e)
      case Success(acc) =>
        if Rethrows(disk, last) then Failure(Rethrown(last))
        else if Contribution(disk, last).Some? then Success(Absorb(acc, Contribution(disk, last).value, baseline))
        else Success(acc)
  }

  /** Reference definition: the value the earliest contributing file in `files` gives `key`. */
  function FirstDefinition(disk: Disk, files: seq<string>, key: string): Option<string>
    decreases |files|
  {
    if files == [] then None
    else if Defines(disk, files[0], key) then Some(Contribution(disk, files[0]).value[key])
    else FirstDefinition(disk, files[1..], key)
  }

  /** An earliest definition is always the definition of some candidate file. */
  lemma {:induction false} FirstDefinitionComesFromAFile(disk: Disk, files: seq<string>, key: string)
    ensures FirstDefinition(disk, files, key).Some? ==>
      exists i :: 0 <= i < |files| && Defines(disk, files[i], key)
        && FirstDefinition(disk, files, key).value == Contribution(disk, files[i]).value[key]
  {
    if files != [] && !Defines(disk, files[0], key) {
      FirstDefinitionComesFromAFile(disk, files[1..], key);
      if FirstDefinition(disk, files, key).Some? {
        var i :| 0 <= i < |files[1..]| && Defines(disk, files[1..][i], key)
          && FirstDefinition(disk, files[1..], key).value == Contribution(disk, files[1..][i]).value[key];
        assert files[1..][i] == files[i + 1];
      }
    }
  }

  /** Only a load that throws a non-`Error` aborts the visit; otherwise a result is returned. */
  lemma {:induction false} OnlyNonErrorThrowsAbort(disk: Disk, files: seq<string>, baseline: Env)
    ensures MergeOutcome(disk, files, baseline).Success? <==> forall f :: f in files ==> !Rethrows(disk, f)
  {
    if files != [] {
      var init, last := files[..|files| - 1], files[|files| - 1];
      assert files == init + [last];
      OnlyNonErrorThrowsAbort(disk, init, baseline);
    }
  }

  /** Appending a file changes the earliest definition of `key` only when there was none. */
  lemma {:induction false} FirstDefinitionSnoc(disk: Disk, files: seq<string>, f: string, key: string)
    ensures FirstDefinition(disk, files + [f], key) ==
      if FirstDefinition(disk, files, key).Some? then FirstDefinition(disk, files, key)
      else if Defines(disk, f, key) then Some(Contribution(disk, f).value[key])
      else None
  {
    if files == [] {
      assert [f][1..] == [];
    } else {
      assert (files + [f])[1..] == files[1..] + [f];
      FirstDefinitionSnoc(disk, files[1..], f, key);
    }
  }

  /** A file that defines `key`, after files that do not, gives the earliest definition. */
  lemma {:induction false} FirstDefinitionAt(disk: Disk, files: seq<string>, i: nat, key: string)
    requires i < |files| && Defines(disk, files[i], key)
    requires forall j :: 0 <= j < i ==> !Defines(disk, files[j], key)
    ensures FirstDefinition(disk, files, key) == Some(Contribution(disk, files[i]).value[key])
  {
    if i > 0 {
      assert !Defines(disk, files[0], key);
      forall j | 0 <= j < i - 1 ensures !Defines(disk, files[1..][j], key) {
        assert files[1..][j] == files[j + 1];
      }
      FirstDefinitionAt(disk, files[1..], i - 1, key);
    }
  }

  /**
   * The merged result holds exactly the keys outside the baseline that some
   * file defines, each with the value of the earliest file that defines it.
   */
  lemma {:induction false} MergedIsFirstDefinition(disk: Disk, files: seq<string>, baseline: Env, key: string)
    requires MergeOutcome(disk, files, baseline).Success?
    ensures key in MergeOutcome(disk, files, baseline).value <==>
      key !in baseline && FirstDefinition(disk, files, key).Some?
    ensures key in MergeOutcome(disk, files, baseline).value ==>
      MergeOutcome(disk, files, baseline).value[key] == FirstDefinition(disk, files, key).value
  {
    if files != [] {
      var init, last := files[..|files| - 1], files[|files| - 1];
      assert files == init + [last];
      MergedIsFirstDefinition(disk, init, baseline, key);
      FirstDefinitionSnoc(disk, init, last, key);
    }
  }

  /** No key of the baseline snapshot ever appears in the merged result, whatever the files hold. */
  lemma {:induction false} BaselineNeverOverridden(disk: Disk, files: seq<string>, baseline: Env)
    requires MergeOutcome(disk, files, baseline).Success?
    ensures forall k :: k in baseline ==> k !in MergeOutcome(disk, files, baseline).value
  {
    forall k | k in baseline ensures k !in MergeOutcome(disk, files, baseline).value {
      MergedIsFirstDefinition(disk, files, baseline, k);
    }
  }

  /**
   * A key first defined by file `i` takes that file's value: no later file
   * overwrites it.
   */
  lemma EarliestFileWins(disk: Disk, files: seq<string>, baseline: Env, i: nat, key: string)
    requires MergeOutcome(disk, files, baseline).Success?
    requires i < |files| && Defines(disk, files[i], key) && key !in baseline
    requires forall j :: 0 <= j < i ==> !Defines(disk, files[j], key)
    ensures key in MergeOutcome(disk, files, baseline).value
    ensures MergeOutcome(disk, files, baseline).value[key] == Contribution(disk, files[i]).value[key]
  {
    FirstDefinitionAt(disk, files, i, key);
    MergedIsFirstDefinition(disk, files, baseline, key);
  }

  /** What is merged from a prefix of the files stays, with its value, in the final result. */
  lemma {:induction false} PrefixIsKept(disk: Disk, files: seq<string>, baseline: Env, n: nat)
    requires n <= |files| && MergeOutcome(disk, files, baseline).Success?
    ensures MergeOutcome(disk, files[..n], baseline).Success?
    ensures var before, after := MergeOutcome(disk, files[..n], baseline).value, MergeOutcome(disk, files, baseline).value;
      forall k :: k in before ==> k in after && after[k] == before[k]
  {
    if n < |files| {
      var init := files[..|files| - 1];
      assert init[..n] == files[..n];
      PrefixIsKept(disk, init, baseline, n);
    } else {
      assert files[..n] == files;
    }
  }

  /** Once the visit has rethrown, the files after it change nothing. */
  lemma {:induction false} FailureIsFinal(disk: Disk, files: seq<string>, baseline: Env, n: nat)
    requires n <= |files| && MergeOutcome(disk, files[..n], baseline).Failure?
    ensures MergeOutcome(disk, files, baseline) == MergeOutcome(disk, files[..n], baseline)
  {
    if n < |files| {
      var init := files[..|files| - 1];
      assert init[..n] == files[..n];
      FailureIsFinal(disk, init, baseline, n);
    } else {
      assert files[..n] == files;
    }
  }

  /** Two disks whose candidates load alike give the same merge outcome. */
  lemma {:induction false} SameLoadsSameOutcome(disk1: Disk, disk2: Disk, files: seq<string>, baseline: Env)
    requires forall f :: f in files ==> Contribution(disk1, f) == Contribution(disk2, f)
    requires forall f :: f in files ==> (Rethrows(disk1, f) <==> Rethrows(disk2, f))
    ensures MergeOutcome(disk1, files, baseline) == MergeOutcome(disk2, files, baseline)
  {
    if files != [] {
      var init := files[..|files| - 1];
      assert forall f :: f in init ==> f in files;
      assert files[|files| - 1] in files;
      SameLoadsSameOutcome(disk1, disk2, init, baseline);
    }
  }

  /**
   * A file whose load yields no variables, or throws an `Error`, merges
   * exactly as a missing file does: it adds nothing and the visit goes on.
   */
  lemma {:induction false} FailedFileActsMissing(disk: Disk, files: seq<string>, baseline: Env, f: string)
    requires f in disk && (disk[f].NoParsed? || disk[f].ThrewError?)
    ensures MergeOutcome(disk, files, baseline) == MergeOutcome(disk - {f}, files, baseline)
  {
    SameLoadsSameOutcome(disk, disk - {f}, files, baseline);
  }

  /** With no candidate file on disk the merge is empty and nothing is thrown. */
  lemma {:induction false} NoFilesNoVariables(files: seq<string>, baseline: Env)
    ensures MergeOutcome(map[], files, baseline) == Success(map[])
  {
    if files != [] {
      NoFilesNoVariables(files[..|files| - 1], baseline);
    }
  }

  /** The property names every plain JavaScript object inherits from `Object.prototype`. */
  const InheritedNames: set<string> := {
    "constructor", "__proto__", "hasOwnProperty", "isPrototypeOf", "propertyIsEnumerable",
    "toLocaleString", "toString", "valueOf",
    "__defineGetter__", "__defineSetter__", "__lookupGetter__", "__lookupSetter__"
  }

  /**
   * `Absorb` as the source's two `typeof ... === 'undefined'` tests behave on
   * plain objects: an inherited name reads as already present, both in the
   * accumulated result and in the baseline copy, so it is never taken.
   */
  function AbsorbAsWritten(acc: Env, vars: Env, baseline: Env): (r: Env)
    ensures r.Keys == acc.Keys + (vars.Keys - baseline.Keys - InheritedNames)
    ensures forall k :: k in acc ==> r[k] == acc[k]
    ensures forall k :: k in r && k !in acc ==> r[k] == vars[k]
  {
    acc + map k | k in vars && k !in acc && k !in InheritedNames && k !in baseline :: vars[k]
  }

  /**
   * A file defining `toString`, with nothing set before: the source drops the
   * key, while `Absorb`, which the model uses, takes it.
   */
  lemma AsWrittenDropsInheritedName()
    ensures AbsorbAsWritten(map[], map["toString" := "1"], map[]) == map[]
    ensures Absorb(map[], map["toString" := "1"], map[]) == map["toString" := "1"]
  {
  }

  /** The inner loop of the source: one file's keys, one at a time. */
  method AbsorbFile(parsed: Env, vars: Env, baseline: Env) returns (r: Env)
    ensures r == Absorb(parsed, vars, baseline)
  {
    r := parsed;
    var pending := vars.Keys;
    while pending != {}
      invariant pending <= vars.Keys
      invariant r.Keys == parsed.Keys + ((vars.Keys - pending) - baseline.Keys)
      invariant forall k :: k in parsed ==> r[k] == parsed[k]
      invariant forall k :: k in r && k !in parsed ==> r[k] == vars[k]
      decreases pending
    {
      var key :| key in pending;
      if key !in r && key !in baseline {
        r := r[key := vars[key]];
      }
      pending := pending - {key};
    }
    var expected := Absorb(parsed, vars, baseline);
    assert r.Keys == expected.Keys;
    assert forall k :: k in r ==> r[k] == expected[k];
  }

  /** The outer loop of the source: the candidate files in precedence order. */
  method MergeCandidates(disk: Disk, files: seq<string>, baseline: Env) returns (r: Result<Env, LoadError>)
    ensures r == MergeOutcome(disk, files, baseline)
  {
    var parsed: Env := map[];
    var i := 0;
    while i < |files|
      invariant 0 <= i <= |files|
      invariant MergeOutcome(disk, files[..i], baseline) == Success(parsed)
    {
      var f := files[i];
      assert files[..i + 1][..i] == files[..i];
      if f in disk {
        match disk[f]
        case NoParsed =>
        case Parsed(vars) =>
          parsed := AbsorbFile(parsed, vars, baseline);
        case ThrewError(_) =>
        case ThrewNonError =>
          FailureIsFinal(disk, files, baseline, i + 1);
          r := Failure(Rethrown(f));
          return;
      }
      i := i + 1;
    }
    assert files[..i] == files;
    r := Success(parsed);
  }
}
