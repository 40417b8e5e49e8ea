/**
 * The npm provider: where it writes, how it picks a version from a registry
 * response, how it saves a module, how it recognises an installed tarball, and
 * the companion `@types` module.
 */
module Npm {
  import opened Base
  import opened Storage
  import opened Registry
  import opened Session
  import Text

  /** The escaped scope of the DefinitelyTyped companion modules. */
  const TypesPrefix: string := "@types%2f"

  /** Downloads whose content-length exceeds this many bytes report their progress. */
  const LargeDownload: int := 2097152

  function TarballName(name: string, ver: string): string {
    name + "-" + ver + ".tgz"
  }

  /** Where the tarball is written: below `path`, and directly in it when no slash is involved. */
  function TarballPath(name: string, ver: string, path: Path): (r: Path)
    ensures path < r
    ensures '/' !in name && '/' !in ver ==> r == path + [TarballName(name, ver)]
  {
    var x := TarballName(name, ver);
    assert x[|x| - 4..] == ".tgz";
    Text.SegmentsSuffix(x, ".tgz");
    Join(path, x)
  }

  /** The package document and the tarball of one version never share a path. */
  lemma PackageNotTarball(name: string, v: string, path: Path)
    ensures PackagePath(name, Some(v), path) != TarballPath(name, v, path)
  {
    var js := name + "-" + v + ".json";
    var tg := TarballName(name, v);
    assert Text.EndsWith(js, ".json") by { assert js[|js| - 5..] == ".json"; }
    assert Text.EndsWith(tg, ".tgz") by { assert tg[|tg| - 4..] == ".tgz"; }
    Text.SegmentsSuffix(js, ".json");
    Text.SegmentsSuffix(tg, ".tgz");
    var a := PackagePath(name, Some(v), path);
    var b := TarballPath(name, v, path);
    var sa := Text.Segments(js);
    var sb := Text.Segments(tg);
    assert a[|a| - 1] == sa[|sa| - 1];
    assert b[|b| - 1] == sb[|sb| - 1];
    var la := a[|a| - 1];
    var lb := b[|b| - 1];
    assert la[|la| - 1] == la[|la| - 5..][4] == 'n';
    assert lb[|lb| - 1] == lb[|lb| - 4..][3] == 'z';
  }

  // ---------------------------------------------------------------------------
  // Version selection

  /** The `latest` dist-tag when set, else the last key of `versions` (undefined when there is none). */
  function DefaultVersion(pkg: NpmPackage, keys: seq<string>): (r: Option<string>)
    ensures Truthy(pkg.latest) ==> r == pkg.latest
    ensures !Truthy(pkg.latest) ==> (r.Some? <==> |keys| > 0)
    ensures !Truthy(pkg.latest) && r.Some? ==> r.value == keys[|keys| - 1]
  {
    if Truthy(pkg.latest) then pkg.latest
    else if |keys| == 0 then None
    else Some(keys[|keys| - 1])
  }

  /** The version the scan over `versions` tries to satisfy. */
  function Wanted(pkg: NpmPackage, keys: seq<string>, ver: Option<string>): (r: Option<string>)
    ensures !Unconstrained(ver) ==> r == ver
    ensures Unconstrained(ver) && Truthy(pkg.latest) ==> r == pkg.latest
    ensures Unconstrained(ver) && !Truthy(pkg.latest) ==> r == (if |keys| > 0 then Some(keys[|keys| - 1]) else None)
  {
    if Unconstrained(ver) then DefaultVersion(pkg, keys) else ver
  }

  /** The gray notes sent while the default version is being picked. */
  function DefaultNotes(name: string, pkg: NpmPackage, ver: Option<string>): (r: seq<Update>)
    ensures !Unconstrained(ver) ==> r == []
    ensures Unconstrained(ver) ==> |r| == 2 && r[0] == Regular("no version was specified for " + name, Gray)
    ensures Unconstrained(ver) && Truthy(pkg.latest) ==>
      r[1] == Regular("using the latest version of " + name, Gray)
    ensures Unconstrained(ver) && !Truthy(pkg.latest) ==>
      r[1] == Regular("there is no latest tag using the last version in the version object of " + name, Gray)
  {
    if !Unconstrained(ver) then []
    else
      [Regular("no version was specified for " + name, Gray),
       if Truthy(pkg.latest) then Regular("using the latest version of " + name, Gray)
       else Regular("there is no latest tag using the last version in the version object of " + name, Gray)]
  }

  /**
   * The scan from the last key towards the first: the index of the last key
   * satisfying `range`, or -1. An undefined range satisfies nothing.
   */
  function LastSatisfying(sv: Semver, keys: seq<string>, range: Option<string>): (i: int)
    ensures -1 <= i < |keys|
    ensures i >= 0 ==> range.Some? && sv.satisfies(keys[i], range.value)
    ensures forall j :: i < j < |keys| ==> range.None? || !sv.satisfies(keys[j], range.value)
  {
    if |keys| == 0 || range.None? then -1
    else if sv.satisfies(keys[|keys| - 1], range.value) then |keys| - 1
    else LastSatisfying(sv, keys[..|keys| - 1], range)
  }

  /** `ver` after the scan: the satisfying key nearest the end, else the wanted version unchanged. */
  function Chosen(sv: Semver, pkg: NpmPackage, keys: seq<string>, ver: Option<string>): (r: Option<string>)
    ensures r == Wanted(pkg, keys, ver) || exists i :: 0 <= i < |keys| && r == Some(keys[i])
    ensures r != Wanted(pkg, keys, ver) ==>
      Wanted(pkg, keys, ver).Some? && r.Some? && sv.satisfies(r.value, Wanted(pkg, keys, ver).value)
  {
    var wanted := Wanted(pkg, keys, ver);
    var i := LastSatisfying(sv, keys, wanted);
    if i >= 0 then Some(keys[i]) else wanted
  }

  /** A chosen key satisfies the wanted range and no later key does; otherwise the wanted version stays. */
  lemma ChosenIsLastSatisfying(sv: Semver, pkg: NpmPackage, keys: seq<string>, ver: Option<string>)
    ensures var w := Wanted(pkg, keys, ver); var c := Chosen(sv, pkg, keys, ver);
      (c == w && forall j :: 0 <= j < |keys| ==> w.None? || !sv.satisfies(keys[j], w.value))
      || (exists i :: (0 <= i < |keys| && c == Some(keys[i]) && w.Some? && sv.satisfies(keys[i], w.value)
          && forall j :: i < j < |keys| ==> !sv.satisfies(keys[j], w.value)))
  {
    var w := Wanted(pkg, keys, ver);
    var i := LastSatisfying(sv, keys, w);
    if i >= 0 {
      assert Chosen(sv, pkg, keys, ver) == Some(keys[i]);
    }
  }

  /** The payload progress reports: one per chunk, and only for a large download. */
  function Progress(d: Download): (r: seq<Update>)
    ensures |r| == (if d.contentLength > LargeDownload then |d.chunks| else 0)
    ensures forall i :: 0 <= i < |r| ==> r[i] == DownloadProgress(TotalLength(d.chunks[..i + 1]), d.contentLength)
  {
    if d.contentLength > LargeDownload then ChunkProgress(d.chunks, d.contentLength) else []
  }

  // ---------------------------------------------------------------------------
  // Fetching one module

  /** The note announcing the version a fetch settled on. */
  function UsingNote(name: string, v: string): Update {
    Regular("using version " + v + " for module " + name, Gray)
  }

  /**
   * What a fetch of `name` that settled on `v` may leave at path `q`: what
   * was there before, or, when `v` is a published version, its tarball or
   * its manifest document.
   */
  predicate FetchedAt(env: Env, name: string, v: Option<string>, path: Path, q: Path, before: Option<Bytes>, after: Option<Bytes>) {
    after == before
    || (v.Some? && name in env.npm && env.npm[name].versions.Some? && v.value in Keys(env.npm[name].versions.value)
        && (q == TarballPath(name, v.value, path)
            || (q == PackagePath(name, v, path)
                && after == Some(env.json.stringify(NpmDoc(ManifestOf(env.npm[name].versions.value, v.value)))))))
  }

  /**
   * The part of `cloneSingleModule` after the version is settled: announce
   * it, save manifest `m` under `packages`, then write the tarball next to it.
   */
  function SaveVersion(json: Json, name: string, v: string, m: Manifest, path: Path, st: State): (r: Step)
    ensures '/' !in name && '/' !in v && IsDirAt(st.fs, path) && FolderReady(st.fs, PackageFolder(path))
      && !IsDirAt(st.fs, PackagePath(name, Some(v), path)) && !IsDirAt(st.fs, TarballPath(name, v, path))
      ==> r.err.None?
    ensures r.err.Some? ==> r.err.value.StorageFailure?
    ensures r.err.None? ==>
      FileAt(r.st.fs, PackagePath(name, Some(v), path)) == Some(json.stringify(NpmDoc(m)))
      && FileAt(r.st.fs, TarballPath(name, v, path)) == Some(Flatten(m.tarball.chunks))
      && r.st.updates == st.updates + [UsingNote(name, v), DownloadingNote(name, v)] + Progress(m.tarball)
    ensures FileAt(r.st.fs, PackagePath(name, Some(v), path)) in {FileAt(st.fs, PackagePath(name, Some(v), path)), Some(json.stringify(NpmDoc(m)))}
    ensures forall q :: (q != PackagePath(name, Some(v), path) && q != TarballPath(name, v, path)) ==>
      FileAt(r.st.fs, q) == FileAt(st.fs, q)
    ensures st.updates <= r.st.updates && r.st.downloaded == st.downloaded && Grows(st.fs, r.st.fs)
    ensures WF(st.fs) ==> WF(r.st.fs)
  {
    PackageNotTarball(name, v, path);
    PlainTarballAside(name, v, path);
    SaveFiles(PackageFolder(path), PackagePath(name, Some(v), path), json.stringify(NpmDoc(m)),
      TarballPath(name, v, path), m.tarball, UsingNote(name, v), DownloadingNote(name, v), st)
  }

  /** Without slashes the tarball sits directly in `path`, beside `packages` rather than at it. */
  lemma PlainTarballAside(name: string, v: string, path: Path)
    ensures '/' !in name && '/' !in v ==>
      Parent(TarballPath(name, v, path)) == path && TarballPath(name, v, path) != PackageFolder(path)
  {
    var x := TarballName(name, v);
    assert x[|x| - 1] == 'z';
    assert x != "packages";
    if '/' !in name && '/' !in v {
      assert (path + [x])[|path|] == x && (path + ["packages"])[|path|] == "packages";
    }
  }

  /**
   * Announce, save `doc` at `file` inside `folder`, announce again, then
   * write the payload `d` at `tarball` and report its progress.
   */
  function SaveFiles(folder: Path, file: Path, doc: Bytes, tarball: Path, d: Download, first: Update, second: Update, st: State): (r: Step)
    requires file != tarball
    ensures |file| > 0 && Parent(file) == folder && FolderReady(st.fs, folder) && !IsDirAt(st.fs, file)
      && |tarball| > 0 && IsDirAt(st.fs, Parent(tarball)) && tarball != folder && !IsDirAt(st.fs, tarball)
      ==> r.err.None?
    ensures r.err.Some? ==> r.err.value.StorageFailure?
    ensures r.err.None? ==>
      FileAt(r.st.fs, file) == Some(doc) && FileAt(r.st.fs, tarball) == Some(Flatten(d.chunks))
      && r.st.updates == st.updates + [first, second] + Progress(d)
    ensures FileAt(r.st.fs, file) == FileAt(st.fs, file) || FileAt(r.st.fs, file) == Some(doc)
    ensures forall q :: (q != file && q != tarball) ==> FileAt(r.st.fs, q) == FileAt(st.fs, q)
    ensures st.updates <= r.st.updates && r.st.downloaded == st.downloaded && Grows(st.fs, r.st.fs)
    ensures WF(st.fs) ==> WF(r.st.fs)
  {
    var a := SavePackageFile(Emit(st, first), folder, file, doc);
    if a.err.Some? then a
    else
      var w := WritePayload(Emit(a.st, second), tarball, d);
      GrowsTrans(st.fs, a.st.fs, w.st.fs);
      AppendTwo(st.updates, first, second, Progress(d));
      w
  }

  lemma AppendTwo(us: seq<Update>, a: Update, b: Update, tail: seq<Update>)
    ensures us + [a] + [b] + tail == us + [a, b] + tail
  {
    assert us + [a] + [b] == us + [a, b];
  }

  /** Write the payload `d` at `tarball`, then report its progress. */
  function WritePayload(st: State, tarball: Path, d: Download): (r: Step)
    ensures r.err.None? <==> |tarball| > 0 && IsDirAt(st.fs, Parent(tarball)) && !IsDirAt(st.fs, tarball)
    ensures forall q :: IsDirAt(r.st.fs, q) <==> IsDirAt(st.fs, q)
    ensures r.err.Some? ==> r.err.value.StorageFailure? && r.st == st
    ensures r.err.None? ==> FileAt(r.st.fs, tarball) == Some(Flatten(d.chunks)) && r.st.updates == st.updates + Progress(d)
    ensures forall q :: q != tarball ==> FileAt(r.st.fs, q) == FileAt(st.fs, q)
    ensures st.updates <= r.st.updates && r.st.downloaded == st.downloaded && Grows(st.fs, r.st.fs)
    ensures WF(st.fs) ==> WF(r.st.fs)
  {
    match WriteFile(st.fs, tarball, Flatten(d.chunks))
    case Err(e) => GrowsRefl(st.fs); Step(st, Some(StorageFailure(e)))
    case Ok(fs1) =>
      WriteFileNoNewDirs(st.fs, tarball, Flatten(d.chunks));
      Step(EmitAll(st.(fs := fs1), Progress(d)), None)
  }

  /**
   * `cloneSingleModule`: ask the registry for `name`, pick the version, save
   * the chosen manifest under `packages`, then the tarball next to it. The
   * callback's version is the one picked, except when the registry call fails
   * or the module is unpublished.
   */
  function CloneSingle(env: Env, name: string, ver: Option<string>, path: Path, st: State): (r: Fetched)
    ensures name !in env.npm ==> r == Fetched(st, Some(RegistryFailure(name, 404)), ver)
    ensures name in env.npm && env.npm[name].versions.None? ==> r == Fetched(st, Some(Unpublished(name)), ver)
    ensures name in env.npm && env.npm[name].versions.Some? ==>
      var pkg := env.npm[name]; var keys := Keys(pkg.versions.value);
      r.ver == Chosen(env.semver, pkg, keys, ver)
      && st.updates + DefaultNotes(name, pkg, ver) <= r.st.updates
      && ((r.ver.None? || r.ver.value !in keys) <==> r.err == Some(NoCompatibleVersion(name, r.ver)))
    ensures r.err.Some? && r.err.value.NoCompatibleVersion? ==> r.st.fs == st.fs
    ensures r.err.Some? ==>
      r.err.value.RegistryFailure? || r.err.value.Unpublished? || r.err.value.NoCompatibleVersion? || r.err.value.StorageFailure?
    ensures r.err.None? ==>
      name in env.npm && env.npm[name].versions.Some? && r.ver.Some? && r.ver.value in Keys(env.npm[name].versions.value)
    ensures r.err.None? ==>
      var m := ManifestOf(env.npm[name].versions.value, r.ver.value);
      FileAt(r.st.fs, PackagePath(name, r.ver, path)) == Some(env.json.stringify(NpmDoc(m)))
      && FileAt(r.st.fs, TarballPath(name, r.ver.value, path)) == Some(Flatten(m.tarball.chunks))
      && r.st.updates == st.updates + DefaultNotes(name, env.npm[name], ver)
           + [UsingNote(name, r.ver.value), DownloadingNote(name, r.ver.value)] + Progress(m.tarball)
    ensures forall q :: FetchedAt(env, name, r.ver, path, q, FileAt(st.fs, q), FileAt(r.st.fs, q))
    ensures st.updates <= r.st.updates && r.st.downloaded == st.downloaded && Grows(st.fs, r.st.fs)
    ensures WF(st.fs) ==> WF(r.st.fs)
  {
    if name !in env.npm then Fetched(st, Some(RegistryFailure(name, 404)), ver)
    else
      var pkg := env.npm[name];
      if pkg.versions.None? then Fetched(st, Some(Unpublished(name)), ver)
      else
        var vs := pkg.versions.value;
        var keys := Keys(vs);
        var chosen := Chosen(env.semver, pkg, keys, ver);
        var st1 := EmitAll(st, DefaultNotes(name, pkg, ver));
        if chosen.None? || chosen.value !in keys then
          Fetched(st1, Some(NoCompatibleVersion(name, chosen)), chosen)
        else
          var s := SaveVersion(env.json, name, chosen.value, ManifestOf(vs, chosen.value), path, st1);
          Fetched(s.st, s.err, chosen)
  }

  /**
   * A published version, once chosen, is fetched successfully into a
   * directory whose `packages` entry is a directory or not there yet: an
   * existing `packages` folder does not stop the save.
   */
  lemma FetchSucceeds(env: Env, name: string, ver: Option<string>, path: Path, st: State)
    requires name in env.npm && env.npm[name].versions.Some?
    requires var c := Chosen(env.semver, env.npm[name], Keys(env.npm[name].versions.value), ver);
      c.Some? && c.value in Keys(env.npm[name].versions.value) && '/' !in name && '/' !in c.value
      && !IsDirAt(st.fs, PackagePath(name, c, path)) && !IsDirAt(st.fs, TarballPath(name, c.value, path))
    requires IsDirAt(st.fs, path) && (IsDirAt(st.fs, PackageFolder(path)) || !Exists(st.fs, PackageFolder(path)))
    ensures CloneSingle(env, name, ver, path, st).err.None?
  {
    assert Parent(PackageFolder(path)) == path;
  }

  // ---------------------------------------------------------------------------
  // Recognising an installed module

  /** The version part of a directory entry read as `<name>-<version>.tgz`. */
  function InstalledVersion(file: string): string {
    Text.ReplaceFirst(Text.AfterLast(file, '-'), ".tgz", "")
  }

  /** The test `isModuleExist` applies to one directory entry. */
  predicate Satisfies(sv: Semver, file: string, name: string, range: string) {
    Text.BeforeLast(file, '-') == name && sv.valid(InstalledVersion(file)) && sv.satisfies(InstalledVersion(file), range)
  }

  /**
   * `isModuleExist`: list `path` and report whether some entry is a tarball of
   * `name` whose version is valid and satisfies `range`.
   */
  function IsModuleExist(sv: Semver, fs: Node, name: string, range: string, path: Path): (r: Result<bool, Error>)
    ensures r.Err? <==> !IsDirAt(fs, path)
    ensures r.Err? ==> r.error == StorageFailure(ENOENT) || r.error == StorageFailure(ENOTDIR)
  {
    match ReadDir(fs, path)
    case Err(e) => Err(StorageFailure(e))
    case Ok(files) => Ok(AnyInstalled(sv, files, name, range))
  }

  /** The scan over the directory listing, first entry first. */
  function AnyInstalled(sv: Semver, files: seq<string>, name: string, range: string): bool
    decreases |files|
  {
    |files| > 0 && (Satisfies(sv, files[0], name, range) || AnyInstalled(sv, files[1..], name, range))
  }

  lemma {:induction false} AnyInstalledMeans(sv: Semver, files: seq<string>, name: string, range: string)
    ensures AnyInstalled(sv, files, name, range) <==> exists f :: f in files && Satisfies(sv, f, name, range)
    decreases |files|
  {
    if |files| > 0 {
      AnyInstalledMeans(sv, files[1..], name, range);
      assert forall f :: f in files <==> f == files[0] || f in files[1..];
    }
  }

  /** A module is reported present exactly when the directory lists a satisfying tarball of it. */
  lemma IsModuleExistFinds(sv: Semver, fs: Node, name: string, range: string, path: Path)
    ensures var r := IsModuleExist(sv, fs, name, range, path);
      r.Ok? ==> (r.value <==> exists f :: f in NamesAt(fs, path) && Satisfies(sv, f, name, range))
  {
    match ReadDir(fs, path)
    case Err(_) =>
    case Ok(files) => AnyInstalledMeans(sv, files, name, range);
  }

  /** A version made of digits and dots only, as in `1.2.3`. */
  predicate ReleaseVersion(v: string) {
    |v| > 0 && forall i :: 0 <= i < |v| ==> v[i] == '.' || '0' <= v[i] <= '9'
  }

  /** The tarball of a release version is read back as that version. */
  lemma TarballVersion(name: string, v: string)
    requires ReleaseVersion(v)
    ensures Text.BeforeLast(TarballName(name, v), '-') == name
    ensures InstalledVersion(TarballName(name, v)) == v
  {
    var tail := v + ".tgz";
    assert TarballName(name, v) == name + ['-'] + tail;
    assert '-' !in tail by {
      forall k | 0 <= k < |tail| ensures tail[k] != '-' {
        if k < |v| { assert tail[k] == v[k]; }
      }
    }
    Text.SplitAtLast(name, '-', tail);
    assert Text.OccursAt(tail, ".tgz", |v|) by { assert tail[|v|..|v| + 4] == ".tgz"; }
    forall j | 0 <= j < |v| ensures !Text.OccursAt(tail, ".tgz", j) {
      if j + 1 < |v| { assert tail[j + 1] == v[j + 1]; }
      assert tail[j..j + 4][1] == tail[j + 1] != 't';
    }
    var k := Text.IndexOf(tail, ".tgz");
    assert k == Some(|v|);
    assert tail[..|v|] == v;
    assert tail[|v| + 4..] == "";
  }

  /** An entry named after a release version is recognised exactly when that version qualifies. */
  lemma TarballRecognised(sv: Semver, name: string, v: string, range: string)
    requires ReleaseVersion(v)
    ensures Satisfies(sv, TarballName(name, v), name, range) <==> sv.valid(v) && sv.satisfies(v, range)
  {
    TarballVersion(name, v);
  }

  /**
   * A tarball whose version carries a pre-release or build tag (a `-`) is
   * never recognised: the last `-` falls inside the version, so the name part
   * read back is longer than the name.
   */
  lemma TaggedTarballNotRecognised(sv: Semver, name: string, v: string, range: string)
    requires '-' in v
    ensures !Satisfies(sv, TarballName(name, v), name, range)
  {
    var file := TarballName(name, v);
    var k :| 0 <= k < |v| && v[k] == '-';
    assert file[|name| + 1 + k] == '-';
    var i := Text.LastIndexOf(file, '-');
    assert i >= |name| + 1 + k;
    assert |Text.BeforeLast(file, '-')| == i;
  }

  /**
   * A scoped name (one with a `/`) is never found among slash-free entries:
   * the name part of an entry is a prefix of it.
   */
  lemma ScopedNeverFound(sv: Semver, fs: Node, name: string, range: string, path: Path)
    requires '/' in name && IsDirAt(fs, path)
    requires forall f :: f in NamesAt(fs, path) ==> '/' !in f
    ensures IsModuleExist(sv, fs, name, range, path) == Ok(false)
  {
    IsModuleExistFinds(sv, fs, name, range, path);
    forall f | f in NamesAt(fs, path) ensures !Satisfies(sv, f, name, range) {
      var b := Text.BeforeLast(f, '-');
      assert b == f[..|b|];
      assert '/' !in b by {
        forall k | 0 <= k < |b| ensures b[k] != '/' {
          assert b[k] == f[k];
        }
      }
    }
  }

  // ---------------------------------------------------------------------------
  // The companion types module

  function TypesName(name: string): string {
    TypesPrefix + name
  }

  /** The gray note sent when fetching the types module fails. */
  function TypesNote(name: string, ver: Option<string>, e: Error): Update {
    if StatusOf(e) == Textual("404") then
      Regular("module for typescript not found, name:" + TypesName(name) + " version:" + Show(ver), Gray)
    else
      Regular("types for module " + name + ":" + Show(ver) + " error: " + Message(e), Gray)
  }

  /**
   * `getTypesModuleIfExist`: fetch `@types%2f<name>` unless `name` already is
   * a types module. Its failure is only reported; the version handed on is the
   * one the types fetch settled on, since the callback's own `ver` shadows the
   * outer one.
   */
  function TypesModuleIfExist(env: Env, name: string, ver: Option<string>, path: Path, st: State): (r: Fetched)
    ensures r.err.None?
    ensures Text.StartsWith(name, TypesPrefix) ==> r == Fetched(st, None, ver)
    ensures !Text.StartsWith(name, TypesPrefix) ==>
      var f := CloneSingle(env, TypesName(name), ver, path, st);
      r.ver == f.ver && r.st.fs == f.st.fs
      && r.st.updates == f.st.updates + (if f.err.Some? then [TypesNote(name, f.ver, f.err.value)] else [])
    ensures st.updates <= r.st.updates && r.st.downloaded == st.downloaded && Grows(st.fs, r.st.fs)
    ensures WF(st.fs) ==> WF(r.st.fs)
  {
    if Text.StartsWith(name, TypesPrefix) then Fetched(st, None, ver)
    else
      var f := CloneSingle(env, TypesName(name), ver, path, st);
      match f.err
      case None => Fetched(f.st, None, f.ver)
      case Some(e) => Fetched(Emit(f.st, TypesNote(name, f.ver, e)), None, f.ver)
  }

  /**
   * The registry client reports statuses as numbers, so the comparison with
   * the string '404' never holds and the "not found" note is never sent.
   */
  lemma TypesNotFoundNoteUnused(name: string, ver: Option<string>, e: Error)
    ensures TypesNote(name, ver, e) == Regular("types for module " + name + ":" + Show(ver) + " error: " + Message(e), Gray)
  {
    match e
    case RegistryFailure(_, s) => assert StatusOf(e) == Numeric(s);
    case _ =>
  }
}
