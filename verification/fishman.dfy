/**
 * The library's entry point, `cloneModule` of `lib/index.js`: choose the
 * provider for the package manager, give every requested module its own
 * directory under the root, clone the modules, count the failures, and pack
 * the whole root for download unless every module failed.
 */
module Fishman {
  import opened Base
  import opened Storage
  import opened Registry
  import opened Session
  import opened Provider
  import opened Archive
  import Text
  import WalkBound

  /** One entry of `modules`: a name and an optional version. */
  datatype ModuleRequest = ModuleRequest(name: string, ver: Option<string>)

  datatype Options = Options(packageManager: string, incDeps: bool, incDevDeps: bool, incTypes: bool, modules: seq<ModuleRequest>)

  /** The modules cloned so far: the state they leave and each one's error, in request order. */
  datatype Tally = Tally(st: State, errors: seq<Option<Error>>)

  /** What a request leaves: the state, and the archive when one was sent. */
  datatype Outcome = Outcome(st: State, archive: Option<Archive>)

  /** The directory every module directory is created in. */
  function BasePath(): Path {
    []
  }

  /**
   * The provider switch. The PyPI provider is built without the types flag,
   * so for it the flag is always off.
   */
  function ProviderFor(o: Options): (r: Option<Provider>)
    ensures r.Some? <==> o.packageManager == "npm" || o.packageManager == "pypi"
    ensures r.Some? ==> (r.value.manager == NpmManager <==> o.packageManager == "npm")
    ensures r.Some? ==> r.value.incDeps == o.incDeps && r.value.incDevDeps == o.incDevDeps
    ensures r.Some? ==> (r.value.incTypes <==> o.packageManager == "npm" && o.incTypes)
  {
    if o.packageManager == "npm" then Some(Provider(NpmManager, o.incDeps, o.incDevDeps, o.incTypes))
    else if o.packageManager == "pypi" then Some(Provider(PypiManager, o.incDeps, o.incDevDeps, false))
    else None
  }

  /** The first slash of the name becomes a dash, and a truthy version is appended after a dash. */
  function ModuleDirName(m: ModuleRequest): (r: string)
    ensures |r| == |m.name| + (if Truthy(m.ver) then 1 + |m.ver.value| else 0)
    ensures '/' !in m.name ==> r[..|m.name|] == m.name
    ensures Truthy(m.ver) ==> r[|m.name|..] == "-" + m.ver.value
  {
    var head := Text.ReplaceFirst(m.name, "/", "-");
    assert |head| == |m.name|;
    Text.IndexOfAbsent(m.name, '/');
    head + (if Truthy(m.ver) then "-" + m.ver.value else "")
  }

  function ModulePath(m: ModuleRequest): Path {
    Join(BasePath(), ModuleDirName(m))
  }

  function FailedNote(name: string, e: Error): Update {
    Regular("failed to cloned " + name + " " + ErrorText(e), Red)
  }

  function UnsupportedError(): Update {
    CriticalError("this package manager is not supported!")
  }

  /** The critical error sent when the iteration ends with the all-failed error string. */
  function AllFailedError(): Update {
    CriticalError("something wrong happened!! " + "Failed to download packages")
  }

  // ---------------------------------------------------------------------------
  // Directory names

  /** A plain name keeps its spelling, and the directory is one segment below the root. */
  lemma PlainModulePath(m: ModuleRequest)
    requires '/' !in m.name && |m.name| > 0 && (m.ver.Some? ==> '/' !in m.ver.value)
    ensures ModuleDirName(m) == m.name + (if Truthy(m.ver) then "-" + m.ver.value else "")
    ensures ModulePath(m) == [ModuleDirName(m)]
  {
    Text.IndexOfAbsent(m.name, '/');
    Text.SegmentsOfPlain(ModuleDirName(m));
  }

  /**
   * A scoped name and the same name with a dash for its slash are given the
   * same directory, so requesting both makes the second one fail.
   */
  lemma ScopedNameCollides(a: string, b: string, ver: Option<string>)
    requires '/' !in a && '/' !in b
    ensures ModuleDirName(ModuleRequest(a + "/" + b, ver)) == ModuleDirName(ModuleRequest(a + "-" + b, ver))
  {
    Text.ReplaceFirstChar(a, '/', b, "-");
    Text.IndexOfAbsent(a + "-" + b, '/');
  }

  // ---------------------------------------------------------------------------
  // Cloning the requested modules

  /**
   * `mkdir(path)` then the provider's `cloneModule(name, ver, path)`; a
   * directory that is already there fails the module before anything is
   * fetched.
   */
  function CloneOne(p: Provider, env: Env, fuel: nat, m: ModuleRequest, st: State): (r: Step)
    ensures Exists(st.fs, ModulePath(m)) ==> r == Step(st, Some(StorageFailure(EEXIST)))
    ensures |ModulePath(m)| > 0 && !IsDirAt(st.fs, Parent(ModulePath(m))) ==> r == Step(st, Some(StorageFailure(ENOENT)))
    ensures st.updates <= r.st.updates && st.downloaded <= r.st.downloaded && Grows(st.fs, r.st.fs)
    ensures WF(st.fs) ==> WF(r.st.fs)
  {
    ExistsInDir(st.fs, ModulePath(m));
    match Mkdir(st.fs, ModulePath(m))
    case Err(e) => GrowsRefl(st.fs); Step(st, Some(StorageFailure(e)))
    case Ok(fs1) =>
      var r := CloneModule(p, env, fuel, m.name, m.ver, ModulePath(m), st.(fs := fs1));
      GrowsTrans(st.fs, fs1, r.st.fs);
      r
  }

  /** A module whose directory can be made is cloned into that fresh, empty directory. */
  lemma CloneOneFresh(p: Provider, env: Env, fuel: nat, m: ModuleRequest, st: State)
    requires |ModulePath(m)| > 0 && IsDirAt(st.fs, Parent(ModulePath(m))) && !Exists(st.fs, ModulePath(m))
    ensures exists fs1 ::
      && Lookup(fs1, ModulePath(m)) == Some(Dir([]))
      && (forall q :: FileAt(fs1, q) == FileAt(st.fs, q))
      && CloneOne(p, env, fuel, m, st) == CloneModule(p, env, fuel, m.name, m.ver, ModulePath(m), st.(fs := fs1))
  {
    var fs1 := Mkdir(st.fs, ModulePath(m)).value;
    MkdirFresh(st.fs, ModulePath(m));
  }

  /** One module's completion callback: a failure is reported in red. */
  function Finish(p: Provider, env: Env, fuel: nat, m: ModuleRequest, st: State): (r: Step)
    ensures var one := CloneOne(p, env, fuel, m, st);
      r.err == one.err && r.st.fs == one.st.fs && r.st.downloaded == one.st.downloaded
      && r.st.updates == one.st.updates + (if one.err.Some? then [FailedNote(m.name, one.err.value)] else [])
  {
    var one := CloneOne(p, env, fuel, m, st);
    if one.err.Some? then Step(Emit(one.st, FailedNote(m.name, one.err.value)), one.err) else one
  }

  /**
   * The iteration over `modules`, one after the other: each failure sends
   * a red note and is counted.
   */
  function CloneAll(p: Provider, env: Env, fuel: nat, ms: seq<ModuleRequest>, st: State): (r: Tally)
    ensures |r.errors| == |ms|
    ensures st.updates <= r.st.updates && st.downloaded <= r.st.downloaded && Grows(st.fs, r.st.fs)
    ensures WF(st.fs) ==> WF(r.st.fs)
    decreases |ms|
  {
    if |ms| == 0 then GrowsRefl(st.fs); Tally(st, [])
    else
      var one := Finish(p, env, fuel, ms[0], st);
      var rest := CloneAll(p, env, fuel, ms[1..], one.st);
      GrowsTrans(st.fs, one.st.fs, rest.st.fs);
      Tally(rest.st, [one.err] + rest.errors)
  }

  /** `moduleFailed`: the number of modules that ended with an error. */
  function FailCount(errors: seq<Option<Error>>): nat {
    if |errors| == 0 then 0 else (if errors[0].Some? then 1 else 0) + FailCount(errors[1..])
  }

  /**
   * `cloneModule`: an unknown package manager is a critical error; otherwise
   * the modules are cloned, and the root is packed unless every one of a
   * non-empty list failed. The error callback handed to the packing is
   * never called.
   */
  function CloneModules(o: Options, env: Env, fuel: nat, st: State): (r: Outcome)
    ensures ProviderFor(o).None? ==> r == Outcome(Emit(st, UnsupportedError()), None)
    ensures st.updates <= r.st.updates && st.downloaded <= r.st.downloaded && Grows(st.fs, r.st.fs)
    ensures WF(st.fs) ==> WF(r.st.fs)
  {
    match ProviderFor(o)
    case None => GrowsRefl(st.fs); Outcome(Emit(st, UnsupportedError()), None)
    case Some(p) =>
      var t := CloneAll(p, env, fuel, o.modules, st);
      if |o.modules| > 0 && FailCount(t.errors) == |o.modules| then Outcome(Emit(t.st, AllFailedError()), None)
      else
        var g := GetDownloadStream(t.st, BasePath());
        Outcome(g.st, g.archive)
  }

  // ---------------------------------------------------------------------------
  // Properties of the iteration

  /** The failure count reaches the number of modules exactly when every module failed. */
  lemma {:induction false} FailCountAll(errors: seq<Option<Error>>)
    ensures FailCount(errors) <= |errors|
    ensures FailCount(errors) == |errors| <==> forall i :: 0 <= i < |errors| ==> errors[i].Some?
  {
    if |errors| > 0 {
      FailCountAll(errors[1..]);
      assert forall i :: 0 < i < |errors| ==> errors[i] == errors[1..][i - 1];
    }
  }

  /** A module's error is the error of its own clone, and a failed one is followed by its red note. */
  lemma CloneAllHead(p: Provider, env: Env, fuel: nat, ms: seq<ModuleRequest>, st: State)
    requires |ms| > 0
    ensures var one := CloneOne(p, env, fuel, ms[0], st); var r := CloneAll(p, env, fuel, ms, st);
      r.errors[0] == one.err
      && (one.err.Some? ==> one.st.updates + [FailedNote(ms[0].name, one.err.value)] <= r.st.updates)
      && one.st.updates <= r.st.updates
  {
  }

  /**
   * When the provider is known and the root is a directory: the request
   * fails with the all-failed error exactly when the list is non-empty and
   * every module failed; otherwise the root is packed and sent.
   */
  lemma PackUnlessAllFailed(o: Options, env: Env, fuel: nat, st: State)
    requires ProviderFor(o).Some? && st.fs.Dir?
    ensures var t := CloneAll(ProviderFor(o).value, env, fuel, o.modules, st); var r := CloneModules(o, env, fuel, st);
      var allFailed := |o.modules| > 0 && forall i :: 0 <= i < |o.modules| ==> t.errors[i].Some?;
      (allFailed ==> r == Outcome(Emit(t.st, AllFailedError()), None))
      && (!allFailed ==> r.archive.Some? && r.st.updates == t.st.updates + [PackedNote(), FinalDownloadToClient]
                         && r.st.fs == t.st.fs)
  {
    var t := CloneAll(ProviderFor(o).value, env, fuel, o.modules, st);
    FailCountAll(t.errors);
    assert IsDirAt(st.fs, BasePath());
    assert IsDirAt(t.st.fs, BasePath());
  }

  /** An empty list packs the root as it is. */
  lemma NothingRequested(o: Options, env: Env, fuel: nat, st: State)
    requires ProviderFor(o).Some? && st.fs.Dir? && |o.modules| == 0
    ensures CloneModules(o, env, fuel, st) == Outcome(GetDownloadStream(st, BasePath()).st, GetDownloadStream(st, BasePath()).archive)
  {
  }

  /**
   * With the depth bound at the number of release tarballs plus one, no
   * module of an npm request fails for want of depth, provided the module
   * names are unscoped and the registry data is tame (see WalkBound).
   */
  lemma {:induction false} CloneAllBounded(p: Provider, env: Env, ms: seq<ModuleRequest>, st: State)
    requires p.manager == NpmManager && WalkBound.Tame(env)
    requires forall m :: m in ms ==> '/' !in m.name
    ensures Some(OutOfFuel) !in CloneAll(p, env, |WalkBound.Candidates(env)| + 1, ms, st).errors
    decreases |ms|
  {
    if |ms| > 0 {
      var fuel := |WalkBound.Candidates(env)| + 1;
      OneBounded(p, env, ms[0], st);
      var one := Finish(p, env, fuel, ms[0], st);
      assert forall m :: m in ms[1..] ==> m in ms;
      CloneAllBounded(p, env, ms[1..], one.st);
      var rest := CloneAll(p, env, fuel, ms[1..], one.st);
      assert CloneAll(p, env, fuel, ms, st).errors == [one.err] + rest.errors;
    }
  }

  lemma OneBounded(p: Provider, env: Env, m: ModuleRequest, st: State)
    requires p.manager == NpmManager && WalkBound.Tame(env) && '/' !in m.name
    ensures CloneOne(p, env, |WalkBound.Candidates(env)| + 1, m, st).err != Some(OutOfFuel)
  {
    match Mkdir(st.fs, ModulePath(m))
    case Err(_) =>
    case Ok(fs1) =>
      MkdirFresh(st.fs, ModulePath(m));
      WalkBound.FreshDirTame(env, fs1, ModulePath(m));
      WalkBound.WalkBounded(p, env, m.name, m.ver, ModulePath(m), st.(fs := fs1));
  }

  /** The same, for a whole npm request. */
  lemma RequestBounded(o: Options, env: Env, st: State)
    requires o.packageManager == "npm" && WalkBound.Tame(env)
    requires forall m :: m in o.modules ==> '/' !in m.name
    ensures Some(OutOfFuel) !in CloneAll(ProviderFor(o).value, env, |WalkBound.Candidates(env)| + 1, o.modules, st).errors
  {
    CloneAllBounded(ProviderFor(o).value, env, o.modules, st);
  }
}
