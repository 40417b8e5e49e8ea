/**
 * The provider walk shared by every package manager: fetch a module, its
 * companion types module, read back the package document it saved, then
 * fetch the dependencies it lists that are not present yet.
 *
 * The recursion has no bound in the source; here it carries a depth `fuel`,
 * and a dependency that would need more depth fails with `OutOfFuel`
 * (the module WalkBound shows how much fuel is always enough).
 */
module Provider {
  import opened Base
  import opened Storage
  import opened Registry
  import opened Session
  import Text
  import Npm
  import Pypi

  datatype Manager = NpmManager | PypiManager

  /** The provider object: its package manager and the three options it was built with. */
  datatype Provider = Provider(manager: Manager, incDeps: bool, incDevDeps: bool, incTypes: bool)

  // ---------------------------------------------------------------------------
  // Dispatch to the package manager

  function CloneSingle(p: Provider, env: Env, name: string, ver: Option<string>, path: Path, st: State): (r: Fetched)
    ensures st.updates <= r.st.updates && Grows(st.fs, r.st.fs)
    ensures WF(st.fs) ==> WF(r.st.fs)
    ensures p.manager == NpmManager ==> r.st.downloaded == st.downloaded
    ensures st.downloaded <= r.st.downloaded
  {
    match p.manager
    case NpmManager => Npm.CloneSingle(env, name, ver, path, st)
    case PypiManager => Pypi.CloneSingle(env, name, ver, path, st)
  }

  /** The base class's `getTypesModuleIfExist` throws "Abstract method!"; only npm overrides it. */
  function TypesModuleIfExist(p: Provider, env: Env, name: string, ver: Option<string>, path: Path, st: State): (r: Fetched)
    ensures p.manager == PypiManager ==> r == Fetched(st, Some(AbstractMethod), ver)
    ensures p.manager == NpmManager ==> r.err.None?
    ensures st.updates <= r.st.updates && Grows(st.fs, r.st.fs) && r.st.downloaded == st.downloaded
    ensures WF(st.fs) ==> WF(r.st.fs)
  {
    match p.manager
    case NpmManager => Npm.TypesModuleIfExist(env, name, ver, path, st)
    case PypiManager => GrowsRefl(st.fs); Fetched(st, Some(AbstractMethod), ver)
  }

  function IsModuleExist(p: Provider, env: Env, st: State, name: string, range: string, path: Path): (r: Result<bool, Error>)
    ensures p.manager == NpmManager ==> r == Npm.IsModuleExist(env.semver, st.fs, name, range, path)
    ensures p.manager == PypiManager ==> r == Ok(Pypi.IsModuleExist(st.downloaded, name, range))
  {
    match p.manager
    case NpmManager => Npm.IsModuleExist(env.semver, st.fs, name, range, path)
    case PypiManager => Ok(Pypi.IsModuleExist(st.downloaded, name, range))
  }

  /**
   * The presence check `cloneDeps` evidently intends: on the escaped name,
   * the one `cloneModule` fetches under, so the one the tarball and the
   * `_downloaded` record carry. For an unscoped name it is `isModuleExist`
   * on the name as given.
   */
  function DepPresent(p: Provider, env: Env, st: State, dep: string, range: string, path: Path): (r: Result<bool, Error>)
    ensures '/' !in dep ==> r == IsModuleExist(p, env, st, dep, range, path)
  {
    IsModuleExist(p, env, st, Escape(dep), range, path)
  }

  // ---------------------------------------------------------------------------
  // Reading a package document back

  /** The outcome of `readPackageFromPath`: the state it leaves and the document or error. */
  datatype Loaded = Loaded(st: State, doc: Result<Doc, Error>)

  /**
   * `readPackageFromPath`: a missing file is reported as a critical error; an
   * unreadable or unparsable file fails the read.
   */
  function ReadPackageFromPath(json: Json, path: Path, st: State): (r: Loaded)
    ensures r.st.fs == st.fs && r.st.downloaded == st.downloaded && st.updates <= r.st.updates
    ensures !Exists(st.fs, path) ==>
      r == Loaded(Emit(st, CriticalError("package file couldn't be found: " + Render(path))), Err(PackageFileMissing(Render(path))))
    ensures Exists(st.fs, path) ==> r.st == st
    ensures r.doc.Ok? <==> FileAt(st.fs, path).Some? && json.parse(FileAt(st.fs, path).value).Some?
    ensures r.doc.Ok? ==> Some(r.doc.value) == json.parse(FileAt(st.fs, path).value)
  {
    if !Exists(st.fs, path) then
      Loaded(Emit(st, CriticalError("package file couldn't be found: " + Render(path))), Err(PackageFileMissing(Render(path))))
    else
      match ReadFile(st.fs, path)
      case Err(e) => Loaded(st, Err(StorageFailure(e)))
      case Ok(data) =>
        match json.parse(data)
        case None => Loaded(st, Err(MalformedPackage(Render(path))))
        case Some(d) => Loaded(st, Ok(d))
  }

  /** The critical error's text and the error's message are the same words. */
  lemma MissingPackageMessage(json: Json, path: Path, st: State)
    requires !Exists(st.fs, path)
    ensures var r := ReadPackageFromPath(json, path, st);
      r.doc.Err? && r.st.updates == st.updates + [CriticalError(Message(r.doc.error))]
  {
  }

  /** `readPackage`: the document saved for `name` at `ver` below `path`. */
  function ReadPackage(json: Json, name: string, ver: Option<string>, path: Path, st: State): (r: Loaded)
    ensures r == ReadPackageFromPath(json, PackagePath(name, ver, path), st)
    ensures r.st.fs == st.fs && r.st.downloaded == st.downloaded && st.updates <= r.st.updates
  {
    ReadPackageFromPath(json, PackagePath(name, ver, path), st)
  }

  // ---------------------------------------------------------------------------
  // The walk

  /** `module.replace('/', '%2f')`: only the first slash of a scoped name is escaped. */
  function Escape(name: string): (r: string)
    ensures '/' !in name ==> r == name
  {
    Text.IndexOfAbsent(name, '/');
    Text.ReplaceFirst(name, "/", "%2f")
  }

  /** A dependency given as a git or URL reference, which the walk skips. */
  predicate IsRemote(c: string) {
    Text.StartsWith(c, "git:") || Text.StartsWith(c, "http:") || Text.StartsWith(c, "https:") || Text.StartsWith(c, "ssh:")
  }

  /** The note `cloneModule` sends once the module (and its types module) are fetched. */
  function DoneNote(escaped: string): Update {
    Regular("done cloning " + escaped, Green)
  }

  function AlreadyNote(dep: string): Update {
    Regular(dep + " already exists", Gray)
  }

  /** The first two steps of `cloneModule`: the module itself, then its types module when asked to. */
  function FetchWithTypes(p: Provider, env: Env, escaped: string, ver: Option<string>, path: Path, st: State): (r: Fetched)
    ensures var f := CloneSingle(p, env, escaped, ver, path, st);
      f.err.Some? ==> r == f
    ensures var f := CloneSingle(p, env, escaped, ver, path, st);
      f.err.None? ==> r == (if p.incTypes then TypesModuleIfExist(p, env, escaped, f.ver, path, f.st) else f)
    ensures st.updates <= r.st.updates && st.downloaded <= r.st.downloaded && Grows(st.fs, r.st.fs)
    ensures WF(st.fs) ==> WF(r.st.fs)
    ensures p.manager == NpmManager ==> r.st.downloaded == st.downloaded
  {
    var f := CloneSingle(p, env, escaped, ver, path, st);
    if f.err.Some? || !p.incTypes then f
    else
      var t := TypesModuleIfExist(p, env, escaped, f.ver, path, f.st);
      GrowsTrans(st.fs, f.st.fs, t.st.fs);
      t
  }

  /**
   * `cloneModule`: fetch the module under its escaped name, then its types
   * module when asked to, and continue with what the fetches settled on.
   */
  function CloneModule(p: Provider, env: Env, fuel: nat, name: string, ver: Option<string>, path: Path, st: State): (r: Step)
    ensures st.updates <= r.st.updates && st.downloaded <= r.st.downloaded && Grows(st.fs, r.st.fs)
    ensures WF(st.fs) ==> WF(r.st.fs)
    ensures p.manager == NpmManager ==> r.st.downloaded == st.downloaded
    decreases fuel, 3, 0
  {
    var escaped := Escape(name);
    var t := FetchWithTypes(p, env, escaped, ver, path, st);
    var r := AfterFetch(p, env, fuel, escaped, t, path);
    GrowsTrans(st.fs, t.st.fs, r.st.fs);
    r
  }

  /**
   * The rest of `cloneModule`: a failed fetch ends it; otherwise announce
   * the module, read the package document saved for the version the
   * fetches settled on, and walk its dependencies.
   */
  function AfterFetch(p: Provider, env: Env, fuel: nat, escaped: string, t: Fetched, path: Path): (r: Step)
    ensures t.st.updates <= r.st.updates && t.st.downloaded <= r.st.downloaded && Grows(t.st.fs, r.st.fs)
    ensures WF(t.st.fs) ==> WF(r.st.fs)
    ensures p.manager == NpmManager ==> r.st.downloaded == t.st.downloaded
    decreases fuel, 2, 0
  {
    if t.err.Some? then GrowsRefl(t.st.fs); Step(t.st, t.err)
    else
      var l := ReadPackage(env.json, escaped, t.ver, path, Emit(t.st, DoneNote(escaped)));
      match l.doc
      case Err(e) => GrowsRefl(t.st.fs); Step(l.st, Some(e))
      case Ok(doc) => ClonePackage(p, env, fuel, doc, path, l.st)
  }

  /** `clonePackage`: the `dependencies` when included, then the `devDependencies` when included. */
  function ClonePackage(p: Provider, env: Env, fuel: nat, doc: Doc, path: Path, st: State): (r: Step)
    ensures st.updates <= r.st.updates && st.downloaded <= r.st.downloaded && Grows(st.fs, r.st.fs)
    ensures WF(st.fs) ==> WF(r.st.fs)
    ensures p.manager == NpmManager ==> r.st.downloaded == st.downloaded
    decreases fuel, 1, 0
  {
    var a := if p.incDeps && Dependencies(doc).Some? then CloneDeps(p, env, fuel, Dependencies(doc).value, path, st)
             else (GrowsRefl(st.fs); Step(st, None));
    if a.err.Some? then a
    else if p.incDevDeps && DevDependencies(doc).Some? then
      var b := CloneDeps(p, env, fuel, DevDependencies(doc).value, path, a.st);
      GrowsTrans(st.fs, a.st.fs, b.st.fs);
      b
    else a
  }

  /** `cloneDeps`: the dependencies one after the other; the first failure stops the rest. */
  function CloneDeps(p: Provider, env: Env, fuel: nat, deps: Deps, path: Path, st: State): (r: Step)
    ensures st.updates <= r.st.updates && st.downloaded <= r.st.downloaded && Grows(st.fs, r.st.fs)
    ensures WF(st.fs) ==> WF(r.st.fs)
    ensures p.manager == NpmManager ==> r.st.downloaded == st.downloaded
    decreases fuel, 0, |deps|
  {
    if |deps| == 0 then GrowsRefl(st.fs); Step(st, None)
    else
      var s := CloneDep(p, env, fuel, deps[0].0, deps[0].1, path, st);
      if s.err.Some? then s
      else
        var rest := CloneDeps(p, env, fuel, deps[1..], path, s.st);
        GrowsTrans(st.fs, s.st.fs, rest.st.fs);
        rest
  }

  /**
   * One dependency of `cloneDeps`: skipped when it is a remote reference,
   * reported when a satisfying copy is present, cloned otherwise.
   */
  function CloneDep(p: Provider, env: Env, fuel: nat, dep: string, range: string, path: Path, st: State): (r: Step)
    ensures IsRemote(range) ==> r == Step(st, None)
    ensures !IsRemote(range) && DepPresent(p, env, st, dep, range, path).Err? ==>
      r == Step(st, Some(DepPresent(p, env, st, dep, range, path).error))
    ensures !IsRemote(range) && DepPresent(p, env, st, dep, range, path) == Ok(true) ==>
      r == Step(Emit(st, AlreadyNote(dep)), None)
    ensures !IsRemote(range) && DepPresent(p, env, st, dep, range, path) == Ok(false) && fuel == 0 ==>
      r == Step(st, Some(OutOfFuel))
    ensures !IsRemote(range) && DepPresent(p, env, st, dep, range, path) == Ok(false) && fuel > 0 ==>
      r == CloneModule(p, env, fuel - 1, dep, Some(range), path, st)
    ensures st.updates <= r.st.updates && st.downloaded <= r.st.downloaded && Grows(st.fs, r.st.fs)
    ensures WF(st.fs) ==> WF(r.st.fs)
    ensures p.manager == NpmManager ==> r.st.downloaded == st.downloaded
    decreases fuel, 0, 0
  {
    if IsRemote(range) then GrowsRefl(st.fs); Step(st, None)
    else
      match DepPresent(p, env, st, dep, range, path)
      case Err(e) => GrowsRefl(st.fs); Step(st, Some(e))
      case Ok(found) =>
        if found then GrowsRefl(st.fs); Step(Emit(st, AlreadyNote(dep)), None)
        else if fuel == 0 then GrowsRefl(st.fs); Step(st, Some(OutOfFuel))
        else CloneModule(p, env, fuel - 1, dep, Some(range), path, st)
  }

  /**
   * One dependency as provider.js:227 has it: the presence check is on the
   * name as given, while the fetch stores the escaped name.
   */
  function CloneDepAsWritten(p: Provider, env: Env, fuel: nat, dep: string, range: string, path: Path, st: State): (r: Step)
    ensures '/' !in dep ==> r == CloneDep(p, env, fuel, dep, range, path, st)
  {
    if IsRemote(range) then Step(st, None)
    else
      match IsModuleExist(p, env, st, dep, range, path)
      case Err(e) => Step(st, Some(e))
      case Ok(found) =>
        if found then Step(Emit(st, AlreadyNote(dep)), None)
        else if fuel == 0 then Step(st, Some(OutOfFuel))
        else CloneModule(p, env, fuel - 1, dep, Some(range), path, st)
  }

  /**
   * A scoped npm dependency is never found by the check as written, since the
   * entries hold no slash: each visit clones it again one level deeper, even
   * when its tarball is present and qualifies, where `CloneDep` reports it
   * present. On a cycle through a scoped name the source walk never ends.
   */
  lemma ScopedDepRecloned(p: Provider, env: Env, fuel: nat, dep: string, v: string, range: string, path: Path, st: State)
    requires p.manager == NpmManager && '/' in dep && !IsRemote(range) && fuel > 0
    requires IsDirAt(st.fs, path) && forall f :: f in NamesAt(st.fs, path) ==> '/' !in f
    ensures CloneDepAsWritten(p, env, fuel, dep, range, path, st) == CloneModule(p, env, fuel - 1, dep, Some(range), path, st)
    ensures Npm.TarballName(Escape(dep), v) in NamesAt(st.fs, path) && Npm.ReleaseVersion(v)
            && env.semver.valid(v) && env.semver.satisfies(v, range) ==>
              CloneDep(p, env, fuel, dep, range, path, st) == Step(Emit(st, AlreadyNote(dep)), None)
  {
    Npm.ScopedNeverFound(env.semver, st.fs, dep, range, path);
    if Npm.TarballName(Escape(dep), v) in NamesAt(st.fs, path) && Npm.ReleaseVersion(v)
       && env.semver.valid(v) && env.semver.satisfies(v, range) {
      DepTarballFound(p, env, st, dep, v, range, path);
    }
  }

  /** The corrected check finds a dependency whose release tarball is in the directory and qualifies. */
  lemma DepTarballFound(p: Provider, env: Env, st: State, dep: string, v: string, range: string, path: Path)
    requires p.manager == NpmManager && IsDirAt(st.fs, path)
    requires Npm.TarballName(Escape(dep), v) in NamesAt(st.fs, path) && Npm.ReleaseVersion(v)
    ensures env.semver.valid(v) && env.semver.satisfies(v, range) <==>
      Npm.Satisfies(env.semver, Npm.TarballName(Escape(dep), v), Escape(dep), range)
    ensures env.semver.valid(v) && env.semver.satisfies(v, range) ==> DepPresent(p, env, st, dep, range, path) == Ok(true)
  {
    Npm.TarballRecognised(env.semver, Escape(dep), v, range);
    Npm.IsModuleExistFinds(env.semver, st.fs, Escape(dep), range, path);
  }

  // ---------------------------------------------------------------------------
  // Properties of the walk

  /** Only the first slash is escaped; the rest of the name is kept. */
  lemma EscapeFirstSlash(a: string, b: string)
    requires '/' !in a
    ensures Escape(a + "/" + b) == a + "%2f" + b
  {
    Text.ReplaceFirstChar(a, '/', b, "%2f");
  }

  /**
   * The first step of `cloneModule`: a failed fetch ends the walk with its
   * error, and so does the PyPI provider's missing types lookup.
   */
  lemma CloneModuleFetchFails(p: Provider, env: Env, fuel: nat, name: string, ver: Option<string>, path: Path, st: State)
    ensures var f := CloneSingle(p, env, Escape(name), ver, path, st); var r := CloneModule(p, env, fuel, name, ver, path, st);
      (f.err.Some? ==> r == Step(f.st, f.err))
      && (f.err.None? && p.incTypes && p.manager == PypiManager ==> r == Step(f.st, Some(AbstractMethod)))
  {
  }

  /**
   * The later steps of `cloneModule`, with or without types: after the
   * fetches succeed, the done note follows their updates, a failed read of
   * the package document for the version they settled on ends the walk with
   * that error, and a document read walks its dependencies.
   */
  lemma CloneModuleReads(p: Provider, env: Env, fuel: nat, name: string, ver: Option<string>, path: Path, st: State)
    ensures var e := Escape(name); var t := FetchWithTypes(p, env, e, ver, path, st); var r := CloneModule(p, env, fuel, name, ver, path, st);
      t.err.None? ==>
        var l := ReadPackage(env.json, e, t.ver, path, Emit(t.st, DoneNote(e)));
        t.st.updates + [DoneNote(e)] <= r.st.updates
        && (l.doc.Err? ==> r == Step(l.st, Some(l.doc.error)))
        && (l.doc.Ok? ==> r == ClonePackage(p, env, fuel, l.doc.value, path, l.st))
  {
    var e := Escape(name);
    var t := FetchWithTypes(p, env, e, ver, path, st);
    assert CloneModule(p, env, fuel, name, ver, path, st) == AfterFetch(p, env, fuel, e, t, path);
    AfterFetchReads(p, env, fuel, e, t, path);
  }

  /** `CloneModuleReads` for whatever the fetches left. */
  lemma AfterFetchReads(p: Provider, env: Env, fuel: nat, e: string, t: Fetched, path: Path)
    ensures var r := AfterFetch(p, env, fuel, e, t, path);
      t.err.None? ==>
        var l := ReadPackage(env.json, e, t.ver, path, Emit(t.st, DoneNote(e)));
        t.st.updates + [DoneNote(e)] <= r.st.updates
        && (l.doc.Err? ==> r == Step(l.st, Some(l.doc.error)))
        && (l.doc.Ok? ==> r == ClonePackage(p, env, fuel, l.doc.value, path, l.st))
  {
    if t.err.None? {
      var l := ReadPackage(env.json, e, t.ver, path, Emit(t.st, DoneNote(e)));
      assert t.st.updates + [DoneNote(e)] == l.st.updates[..|t.st.updates| + 1];
    }
  }

  /** Running two dependency lists one after the other is running their concatenation. */
  lemma {:induction false} CloneDepsAppend(p: Provider, env: Env, fuel: nat, a: Deps, b: Deps, path: Path, st: State)
    ensures CloneDeps(p, env, fuel, a + b, path, st) ==
      var s := CloneDeps(p, env, fuel, a, path, st);
      if s.err.Some? then s else CloneDeps(p, env, fuel, b, path, s.st)
    decreases |a|
  {
    if |a| == 0 {
      assert a + b == b;
    } else {
      assert (a + b)[0] == a[0];
      assert (a + b)[1..] == a[1..] + b;
      var s := CloneDep(p, env, fuel, a[0].0, a[0].1, path, st);
      if s.err.None? {
        CloneDepsAppend(p, env, fuel, a[1..], b, path, s.st);
      }
    }
  }

  /** The dependency lists `clonePackage` expands, in the order it expands them. */
  function Selected(p: Provider, doc: Doc): Deps {
    (if p.incDeps && Dependencies(doc).Some? then Dependencies(doc).value else [])
    + (if p.incDevDeps && DevDependencies(doc).Some? then DevDependencies(doc).value else [])
  }

  /**
   * `clonePackage` is one serial pass over the included `dependencies`
   * followed by the included `devDependencies`.
   */
  lemma ClonePackageSerial(p: Provider, env: Env, fuel: nat, doc: Doc, path: Path, st: State)
    ensures ClonePackage(p, env, fuel, doc, path, st) == CloneDeps(p, env, fuel, Selected(p, doc), path, st)
  {
    var a := if p.incDeps && Dependencies(doc).Some? then Dependencies(doc).value else [];
    var b := if p.incDevDeps && DevDependencies(doc).Some? then DevDependencies(doc).value else [];
    CloneDepsAppend(p, env, fuel, a, b, path, st);
    var s := CloneDeps(p, env, fuel, a, path, st);
    if s.err.None? && b == [] {
      assert CloneDeps(p, env, fuel, b, path, s.st) == Step(s.st, None);
    }
  }

  /** A list of remote references is skipped entirely: no update, no fetch. */
  lemma {:induction false} CloneDepsRemote(p: Provider, env: Env, fuel: nat, deps: Deps, path: Path, st: State)
    requires forall i :: 0 <= i < |deps| ==> IsRemote(deps[i].1)
    ensures CloneDeps(p, env, fuel, deps, path, st) == Step(st, None)
    decreases |deps|
  {
    if |deps| > 0 {
      assert IsRemote(deps[0].1);
      assert forall i :: 0 <= i < |deps| - 1 ==> deps[1..][i] == deps[i + 1];
      CloneDepsRemote(p, env, fuel, deps[1..], path, st);
    }
  }

  /** A PyPI document lists no dependencies, so nothing below a PyPI module is expanded. */
  lemma PypiNotExpanded(p: Provider, env: Env, fuel: nat, release: PypiPackage, path: Path, st: State)
    ensures ClonePackage(p, env, fuel, PypiDoc(release), path, st) == Step(st, None)
  {
  }
}
