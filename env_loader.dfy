/**
 * `createControlledEnvironment`: a loader whose closure state is the baseline
 * snapshot (`userDefinedEnvironment`) and the memoised result
 * (`memoEnvironment`), with the operations `_getForce`, `get` and `load`.
 */
module EnvLoader {
  import opened Wrappers
  import opened EnvFiles
  import opened EnvMerge

  /** The execution mode as the process environment gives it (`process.env.NODE_ENV`). */
  function ModeOf(env: Env): Option<string>
  {
    if "NODE_ENV" in env then Some(env["NODE_ENV"]) else None
  }

  /**
   * What `_getForce` returns or throws, given the baseline snapshot in force:
   * it throws the invalid-mode error exactly for a set mode outside the three,
   * and a result it returns never holds a baseline key.
   */
  function LoadOutcome(mode: Option<string>, disk: Disk, baseline: Env): (r: Result<Env, LoadError>)
    ensures (r.Failure? && r.error.InvalidMode?) <==> IsSet(mode) && mode.value !in ValidModes
    ensures r.Success? ==> forall k :: k in baseline ==> k !in r.value
  {
    match GetFiles(mode)
    case Failure(e) => Failure(InvalidMode(e.mode))
    case Success(files) =>
      var merged := MergeOutcome(disk, files, baseline);
      if merged.Success? then
        BaselineNeverOverridden(disk, files, baseline);
        merged
      else
        merged
  }

  /** An unrecognised mode makes `_getForce` throw, whatever the files hold. */
  lemma InvalidModeThrows(mode: Option<string>, disk: Disk, baseline: Env)
    requires IsSet(mode) && mode.value !in ValidModes
    ensures LoadOutcome(mode, disk, baseline) == Failure(InvalidMode(mode.value))
  {
  }

  /**
   * With no candidate file on disk, `_getForce` in any accepted mode (unset
   * included) returns the empty result and throws nothing.
   */
  lemma NoFilesEmptyResult(mode: Option<string>, baseline: Env)
    requires !(IsSet(mode) && mode.value !in ValidModes)
    ensures LoadOutcome(mode, map[], baseline) == Success(map[])
  {
    NoFilesNoVariables(GetFiles(mode).value, baseline);
  }

  /** Files at the project root: `.env` sets `A=1` and `.env.production` sets `A=2`. */
  const ProductionDisk: Disk := map[".env" := Parsed(map["A" := "1"]), ".env.production" := Parsed(map["A" := "2"])]

  /** The candidates of mode `production`, in precedence order. */
  const ProductionCandidates: seq<string> := [".env.production.local", ".env.local", ".env.production", ".env"]

  /** With the files of `ProductionDisk`, `_getForce` in mode `production` gives `{A: "2"}`. */
  lemma ProductionOverridesDefault()
    ensures LoadOutcome(Some("production"), ProductionDisk, map[]) == Success(map["A" := "2"])
  {
    var files := ProductionCandidates;
    assert ".env." + "production" + ".local" == files[0] && ".env." + "production" == files[2];
    DevelopmentOrProductionFiles("production");
    assert LoadOutcome(Some("production"), ProductionDisk, map[]) == MergeOutcome(ProductionDisk, files, map[]);
    ProductionMerge();
  }

  /**
   * The merge step of that scenario: `.env.production` comes before `.env`
   * among the candidates, so its `A` wins, and no other key is defined.
   */
  lemma ProductionMerge()
    ensures MergeOutcome(ProductionDisk, ProductionCandidates, map[]) == Success(map["A" := "2"])
  {
    var disk, files := ProductionDisk, ProductionCandidates;
    assert disk.Keys == {".env", ".env.production"};
    assert files[0] !in disk && files[1] !in disk && !Rethrows(disk, files[2]) && !Rethrows(disk, files[3]);
    OnlyNonErrorThrowsAbort(disk, files, map[]);
    var r := MergeOutcome(disk, files, map[]).value;
    assert Contribution(disk, files[2]) == Some(map["A" := "2"]);
    assert Contribution(disk, files[3]) == Some(map["A" := "1"]);
    EarliestFileWins(disk, files, map[], 2, "A");
    forall k | k in r ensures k == "A" {
      MergedIsFirstDefinition(disk, files, map[], k);
      FirstDefinitionComesFromAFile(disk, files, k);
    }
    assert r.Keys == {"A"} && r["A"] == "2";
    assert r == map["A" := "2"];
  }

  /** In `test` mode `.env.local` is never read: its contents do not affect the result. */
  lemma TestModeIgnoresLocal(disk: Disk, baseline: Env)
    ensures LoadOutcome(Some("test"), disk, baseline) == LoadOutcome(Some("test"), disk - {".env.local"}, baseline)
  {
    TestFiles();
    var files := [".env.test.local", ".env.test", ".env"];
    assert forall f :: f in files ==> f != ".env.local";
    SameLoadsSameOutcome(disk, disk - {".env.local"}, files, baseline);
  }

  /**
   * Overlaying a result onto a process environment keeps the value of every
   * baseline key that environment holds: the result never replaces one.
   */
  lemma OverlayKeepsUserValues(mode: Option<string>, disk: Disk, baseline: Env, before: Env)
    requires LoadOutcome(mode, disk, baseline).Success?
    ensures var after := before + LoadOutcome(mode, disk, baseline).value;
      forall k :: k in baseline && k in before ==> after[k] == before[k]
  {
  }

  /** The process-wide environment (`process.env`), which `load` reassigns. */
  class ProcessEnv {
    var vars: Env

    constructor (initial: Env)
      ensures vars == initial
    {
      vars := initial;
    }
  }

  /** The object `createControlledEnvironment` returns, with its closure variables as fields. */
  class ControlledEnvironment {
    var userDefinedEnvironment: Option<Env>
    var memoEnvironment: Option<Env>

    /** A fresh loader: no baseline captured and nothing memoised yet. */
    constructor ()
      ensures userDefinedEnvironment == None && memoEnvironment == None
    {
      userDefinedEnvironment := None;
      memoEnvironment := None;
    }

    /**
     * `_getForce`: captures the baseline on the first call only, then lists
     * the candidates for the current mode and merges them.
     */
    method GetForce(process: ProcessEnv, disk: Disk) returns (r: Result<Env, LoadError>)
      modifies this`userDefinedEnvironment
      ensures userDefinedEnvironment ==
        if old(userDefinedEnvironment).Some? then old(userDefinedEnvironment) else Some(process.vars)
      ensures r == LoadOutcome(ModeOf(process.vars), disk, userDefinedEnvironment.value)
    {
      if userDefinedEnvironment.None? {
        userDefinedEnvironment := Some(process.vars);
      }
      var files := GetFiles(ModeOf(process.vars));
      if files.Failure? {
        r := Failure(InvalidMode(files.error.mode));
        return;
      }
      r := MergeCandidates(disk, files.value, userDefinedEnvironment.value);
    }

    /**
     * `get`: the memoised result unless `force` is set or there is none yet;
     * otherwise a fresh `_getForce`, which becomes the memo when it returns.
     */
    method Get(process: ProcessEnv, disk: Disk, force: bool) returns (r: Result<Env, LoadError>)
      modifies this
      ensures !force && old(memoEnvironment).Some? ==>
        r == Success(old(memoEnvironment).value) && unchanged(this)
      ensures force || old(memoEnvironment).None? ==>
        && userDefinedEnvironment ==
             (if old(userDefinedEnvironment).Some? then old(userDefinedEnvironment) else Some(process.vars))
        && r == LoadOutcome(ModeOf(process.vars), disk, userDefinedEnvironment.value)
        && memoEnvironment == (if r.Success? then Some(r.value) else old(memoEnvironment))
    {
      if !force && memoEnvironment.Some? {
        r := Success(memoEnvironment.value);
        return;
      }
      r := GetForce(process, disk);
      if r.Success? {
        memoEnvironment := Some(r.value);
      }
    }

    /**
     * `load`: overlays the result of `get` onto the process environment and
     * returns the new process environment; a throw leaves it as it was.
     */
    method Load(process: ProcessEnv, disk: Disk, force: bool) returns (r: Result<Env, LoadError>)
      modifies this, process
      ensures !force && old(memoEnvironment).Some? ==>
        && userDefinedEnvironment == old(userDefinedEnvironment)
        && memoEnvironment == old(memoEnvironment)
        && process.vars == old(process.vars) + old(memoEnvironment).value
        && r == Success(process.vars)
      ensures force || old(memoEnvironment).None? ==>
        && userDefinedEnvironment ==
             (if old(userDefinedEnvironment).Some? then old(userDefinedEnvironment) else Some(old(process.vars)))
        && match LoadOutcome(ModeOf(old(process.vars)), disk, userDefinedEnvironment.value)
           case Success(env) =>
             memoEnvironment == Some(env) && process.vars == old(process.vars) + env && r == Success(process.vars)
           case Failure(e) =>
             memoEnvironment == old(memoEnvironment) && process.vars == old(process.vars) && r == Failure(e)
    {
      var env := Get(process, disk, force);
      if env.Failure? {
        r := Failure(env.error);
        return;
      }
      process.vars := process.vars + env.value;
      r := Success(process.vars);
    }
  }

  /**
   * Two `get` calls without `force` give the same result even when the files
   * change in between; a forced third call sees the new files.
   */
  method MemoisedUntilForced(process: ProcessEnv, before: Disk, after: Disk)
    returns (first: Result<Env, LoadError>, second: Result<Env, LoadError>, third: Result<Env, LoadError>)
    ensures first.Success? ==> second == first
    ensures third == LoadOutcome(ModeOf(process.vars), after, process.vars)
  {
    var loader := new ControlledEnvironment();
    first := loader.Get(process, before, false);
    second := loader.Get(process, after, false);
    third := loader.Get(process, after, true);
  }
}
