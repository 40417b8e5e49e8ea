/**
 * The PyPI provider: it saves a release's JSON document, downloads every
 * distribution of the release the registry reports, and records what it
 * fetched in its `_downloaded` log, which is all `isModuleExist` consults.
 */
module Pypi {
  import opened Base
  import opened Storage
  import opened Registry
  import opened Session

  /**
   * `isModuleExist`: an exact match of name and version in the log; no
   * version range is interpreted.
   */
  function IsModuleExist(log: seq<Release>, name: string, ver: string): (r: bool)
    ensures r <==> Release(name, ver) in log
  {
    exists i :: 0 <= i < |log| && log[i].name == name && log[i].version == ver
  }

  /** Appending a record adds exactly that release to what is found. */
  lemma RecordedPresence(log: seq<Release>, rel: Release, name: string, ver: string)
    ensures IsModuleExist(log + [rel], name, ver) <==> IsModuleExist(log, name, ver) || rel == Release(name, ver)
  {
    assert Release(name, ver) in log + [rel] <==> Release(name, ver) in log || Release(name, ver) == rel;
  }

  /** Where a distribution is written: below `path`, and directly in it for a plain file name. */
  function DistributionPath(d: Distribution, path: Path): (r: Path)
    ensures path <= r
    ensures '/' !in d.filename && d.filename != "" ==> r == path + [d.filename]
  {
    Join(path, d.filename)
  }

  /** The progress reports of the distributions, in order: one per chunk, whatever the size. */
  function AllProgress(urls: seq<Distribution>): seq<Update> {
    Flatten(seq(|urls|, i requires 0 <= i < |urls| => ChunkProgress(urls[i].download.chunks, urls[i].download.contentLength)))
  }

  lemma AllProgressCons(urls: seq<Distribution>)
    requires |urls| > 0
    ensures AllProgress(urls) == ChunkProgress(urls[0].download.chunks, urls[0].download.contentLength) + AllProgress(urls[1..])
  {
    var f := seq(|urls|, i requires 0 <= i < |urls| => ChunkProgress(urls[i].download.chunks, urls[i].download.contentLength));
    var g := seq(|urls| - 1, i requires 0 <= i < |urls| - 1 => ChunkProgress(urls[1..][i].download.chunks, urls[1..][i].download.contentLength));
    assert f[1..] == g;
  }

  /**
   * The downloads of a release, one after the other; the first failure stops
   * them. Downloads that all succeed report the progress of every chunk of
   * every distribution, in order.
   */
  function DownloadAll(urls: seq<Distribution>, path: Path, st: State): (r: Step)
    ensures st.updates <= r.st.updates && r.st.downloaded == st.downloaded && Grows(st.fs, r.st.fs)
    ensures WF(st.fs) ==> WF(r.st.fs)
    ensures r.err.None? ==> r.st.updates == st.updates + AllProgress(urls)
    decreases |urls|
  {
    if |urls| == 0 then GrowsRefl(st.fs); assert st.updates + [] == st.updates; Step(st, None)
    else
      var d := urls[0];
      match WriteFile(st.fs, DistributionPath(d, path), Flatten(d.download.chunks))
      case Err(e) => GrowsRefl(st.fs); Step(st, Some(StorageFailure(e)))
      case Ok(fs1) =>
        var cp := ChunkProgress(d.download.chunks, d.download.contentLength);
        var rest := DownloadAll(urls[1..], path, EmitAll(st.(fs := fs1), cp));
        GrowsTrans(st.fs, fs1, rest.st.fs);
        AllProgressCons(urls);
        assert st.updates + cp + AllProgress(urls[1..]) == st.updates + (cp + AllProgress(urls[1..]));
        rest
  }

  /** A path no distribution is written to keeps what it held. */
  lemma {:induction false} DownloadAllFrame(urls: seq<Distribution>, path: Path, st: State, q: Path)
    requires forall i :: 0 <= i < |urls| ==> DistributionPath(urls[i], path) != q
    ensures FileAt(DownloadAll(urls, path, st).st.fs, q) == FileAt(st.fs, q)
    decreases |urls|
  {
    if |urls| > 0 {
      var d := urls[0];
      assert DistributionPath(urls[0], path) != q;
      match WriteFile(st.fs, DistributionPath(d, path), Flatten(d.download.chunks))
      case Err(_) =>
      case Ok(fs1) =>
        var st1 := EmitAll(st.(fs := fs1), ChunkProgress(d.download.chunks, d.download.contentLength));
        assert forall i :: 0 <= i < |urls| - 1 ==> urls[1..][i] == urls[i + 1];
        DownloadAllFrame(urls[1..], path, st1, q);
    }
  }

  /**
   * After successful downloads a distribution's path holds its payload,
   * unless a later distribution was written to the same path.
   */
  lemma {:induction false} DownloadAllWrites(urls: seq<Distribution>, path: Path, st: State, i: nat)
    requires i < |urls|
    requires forall j :: i < j < |urls| ==> DistributionPath(urls[j], path) != DistributionPath(urls[i], path)
    requires DownloadAll(urls, path, st).err.None?
    ensures FileAt(DownloadAll(urls, path, st).st.fs, DistributionPath(urls[i], path)) == Some(Flatten(urls[i].download.chunks))
    decreases |urls|
  {
    var d := urls[0];
    var w := WriteFile(st.fs, DistributionPath(d, path), Flatten(d.download.chunks));
    assert w.Ok?;
    var st1 := EmitAll(st.(fs := w.value), ChunkProgress(d.download.chunks, d.download.contentLength));
    assert forall j :: 0 <= j < |urls| - 1 ==> urls[1..][j] == urls[j + 1];
    if i == 0 {
      DownloadAllFrame(urls[1..], path, st1, DistributionPath(d, path));
    } else {
      DownloadAllWrites(urls[1..], path, st1, i - 1);
    }
  }

  /** The last distribution written to the same path as the `i`-th. */
  function LastWriter(urls: seq<Distribution>, path: Path, i: nat): (k: nat)
    requires i < |urls|
    ensures i <= k < |urls| && DistributionPath(urls[k], path) == DistributionPath(urls[i], path)
    ensures forall j :: k < j < |urls| ==> DistributionPath(urls[j], path) != DistributionPath(urls[i], path)
    decreases |urls| - i
  {
    if exists j :: i < j < |urls| && DistributionPath(urls[j], path) == DistributionPath(urls[i], path) then
      var j :| i < j < |urls| && DistributionPath(urls[j], path) == DistributionPath(urls[i], path);
      LastWriter(urls, path, j)
    else i
  }

  /** After successful downloads every distribution's path holds a file. */
  lemma DownloadAllFiles(urls: seq<Distribution>, path: Path, st: State)
    requires DownloadAll(urls, path, st).err.None?
    ensures forall i :: 0 <= i < |urls| ==> FileAt(DownloadAll(urls, path, st).st.fs, DistributionPath(urls[i], path)).Some?
  {
    forall i | 0 <= i < |urls| ensures FileAt(DownloadAll(urls, path, st).st.fs, DistributionPath(urls[i], path)).Some? {
      var k := LastWriter(urls, path, i);
      DownloadAllWrites(urls, path, st, k);
    }
  }

  /**
   * Distributions with plain file names, none of them a directory, are all
   * written into a directory.
   */
  lemma {:induction false} DownloadAllSucceeds(urls: seq<Distribution>, path: Path, st: State)
    requires IsDirAt(st.fs, path)
    requires forall i :: 0 <= i < |urls| ==>
      '/' !in urls[i].filename && urls[i].filename != "" && !IsDirAt(st.fs, DistributionPath(urls[i], path))
    ensures DownloadAll(urls, path, st).err.None?
    decreases |urls|
  {
    if |urls| > 0 {
      var d := urls[0];
      var p := DistributionPath(d, path);
      assert Parent(p) == path;
      var fs1 := WriteFile(st.fs, p, Flatten(d.download.chunks)).value;
      WriteFileNoNewDirs(st.fs, p, Flatten(d.download.chunks));
      var st1 := EmitAll(st.(fs := fs1), ChunkProgress(d.download.chunks, d.download.contentLength));
      assert forall i :: 0 <= i < |urls| - 1 ==> urls[1..][i] == urls[i + 1];
      DownloadAllSucceeds(urls[1..], path, st1);
    }
  }

  /** The version a fetch settles on: `info.version` when none usable was asked for. */
  function Settled(pack: PypiPackage, ver: Option<string>): string
    requires Truthy(pack.version)
  {
    if Unconstrained(ver) then pack.version.value else ver.value
  }

  /** The notes sent when the version is left to the registry; the second one carries no color. */
  function DefaultNotes(name: string, v: string, ver: Option<string>): seq<Update> {
    if Unconstrained(ver) then
      [Regular("no version was specified for " + name, Gray), Regular("using version " + v + " of " + name, NoColor)]
    else []
  }

  /** Saving the release document under `packages`, named after the settled version. */
  function SaveRelease(json: Json, name: string, v: string, pack: PypiPackage, path: Path, st: State): (r: Step)
    ensures '/' !in name && '/' !in v ==>
      (r.err.None? <==> FolderReady(st.fs, PackageFolder(path)) && !IsDirAt(st.fs, PackagePath(name, Some(v), path)))
    ensures forall q :: IsDirAt(r.st.fs, q) ==> IsDirAt(st.fs, q) || q == PackageFolder(path)
    ensures r.err.None? ==> FileAt(r.st.fs, PackagePath(name, Some(v), path)) == Some(json.stringify(PypiDoc(pack)))
    ensures r.st.updates == st.updates && r.st.downloaded == st.downloaded && Grows(st.fs, r.st.fs)
    ensures WF(st.fs) ==> WF(r.st.fs)
  {
    SavePackageFile(st, PackageFolder(path), PackagePath(name, Some(v), path), json.stringify(PypiDoc(pack)))
  }

  /**
   * `cloneSingleModule`: fetch the release document, save it under
   * `packages` named after the settled version, download the distributions
   * of the release the registry reports (whatever version was asked for),
   * and log the release. Failures reach the callback without a version.
   */
  function CloneSingle(env: Env, name: string, ver: Option<string>, path: Path, st: State): (r: Fetched)
    ensures name !in env.pypi ==> r == Fetched(st, Some(RegistryFailure(name, 404)), None)
    ensures name in env.pypi && !Truthy(env.pypi[name].version) ==> r == Fetched(st, Some(Unpublished(name)), None)
    ensures r.err.Some? ==> r.ver.None? && r.st.downloaded == st.downloaded
    ensures r.err.None? ==>
      name in env.pypi && Truthy(env.pypi[name].version) && r.ver == Some(Settled(env.pypi[name], ver))
      && r.st.downloaded == st.downloaded + [Release(name, r.ver.value)]
    ensures st.updates <= r.st.updates && Grows(st.fs, r.st.fs)
    ensures WF(st.fs) ==> WF(r.st.fs)
  {
    if name !in env.pypi then Fetched(st, Some(RegistryFailure(name, 404)), None)
    else
      var pack := env.pypi[name];
      if !Truthy(pack.version) then Fetched(st, Some(Unpublished(name)), None)
      else
        var v := Settled(pack, ver);
        var saved := SaveRelease(env.json, name, v, pack, path, EmitAll(st, DefaultNotes(name, v, ver)));
        if saved.err.Some? then Fetched(saved.st, saved.err, None)
        else
          var dl := DownloadAll(pack.urls, path, Emit(saved.st, DownloadingNote(name, v)));
          GrowsTrans(st.fs, saved.st.fs, dl.st.fs);
          if dl.err.Some? then Fetched(dl.st, dl.err, None)
          else Fetched(dl.st.(downloaded := dl.st.downloaded + [Release(name, v)]), None, Some(v))
  }

  /**
   * A published release is fetched successfully into a directory whose
   * `packages` entry is a directory or not there yet, when its distributions
   * have plain file names other than `packages` and none of them is a
   * directory: an existing `packages` folder does not stop the save.
   */
  lemma FetchSucceeds(env: Env, name: string, ver: Option<string>, path: Path, st: State)
    requires name in env.pypi && Truthy(env.pypi[name].version)
    requires var v := Settled(env.pypi[name], ver);
      '/' !in name && '/' !in v && !IsDirAt(st.fs, PackagePath(name, Some(v), path))
    requires IsDirAt(st.fs, path) && (IsDirAt(st.fs, PackageFolder(path)) || !Exists(st.fs, PackageFolder(path)))
    requires var urls := env.pypi[name].urls; forall i :: 0 <= i < |urls| ==>
      '/' !in urls[i].filename && urls[i].filename != "" && urls[i].filename != "packages"
      && !IsDirAt(st.fs, DistributionPath(urls[i], path))
    ensures CloneSingle(env, name, ver, path, st).err.None?
  {
    var pack := env.pypi[name];
    var v := Settled(pack, ver);
    assert Parent(PackageFolder(path)) == path;
    var saved := SaveRelease(env.json, name, v, pack, path, EmitAll(st, DefaultNotes(name, v, ver)));
    var st2 := Emit(saved.st, DownloadingNote(name, v));
    forall i | 0 <= i < |pack.urls| ensures !IsDirAt(st2.fs, DistributionPath(pack.urls[i], path)) {
      assert DistributionPath(pack.urls[i], path) != PackageFolder(path) by {
        assert DistributionPath(pack.urls[i], path)[|path|] == pack.urls[i].filename;
      }
    }
    DownloadAllSucceeds(pack.urls, path, st2);
  }

  /**
   * A successful fetch sends the notes, then the progress of every
   * distribution; it leaves a file at every distribution path, and the
   * release document in `packages` unless a distribution was written there.
   */
  lemma CloneSingleWrites(env: Env, name: string, ver: Option<string>, path: Path, st: State)
    requires CloneSingle(env, name, ver, path, st).err.None?
    ensures var r := CloneSingle(env, name, ver, path, st); var pack := env.pypi[name]; var v := r.ver.value;
      r.st.updates == st.updates + DefaultNotes(name, v, ver) + [DownloadingNote(name, v)] + AllProgress(pack.urls)
      && (forall i :: 0 <= i < |pack.urls| ==> FileAt(r.st.fs, DistributionPath(pack.urls[i], path)).Some?)
      && ((forall i :: 0 <= i < |pack.urls| ==> DistributionPath(pack.urls[i], path) != PackagePath(name, r.ver, path)) ==>
           FileAt(r.st.fs, PackagePath(name, r.ver, path)) == Some(env.json.stringify(PypiDoc(pack))))
  {
    var pack := env.pypi[name];
    var v := Settled(pack, ver);
    var saved := SaveRelease(env.json, name, v, pack, path, EmitAll(st, DefaultNotes(name, v, ver)));
    var st2 := Emit(saved.st, DownloadingNote(name, v));
    DownloadAllFiles(pack.urls, path, st2);
    if forall i :: 0 <= i < |pack.urls| ==> DistributionPath(pack.urls[i], path) != PackagePath(name, Some(v), path) {
      DownloadAllFrame(pack.urls, path, st2, PackagePath(name, Some(v), path));
    }
  }

  // ---------------------------------------------------------------------------
  // The promise chain of `cloneSingleModule` as written

  /**
   * What the chain does with its callback: the first call, the updates it
   * sends after that call has returned, and whether `.catch` calls the
   * callback a second time.
   */
  datatype Chain = Chain(first: Fetched, late: seq<Update>, calledAgain: bool)

  /**
   * `cloneSingleModule` as written. `return callback(err)` for an
   * unpublished release leaves only the first `.then`, so the second runs
   * on the callback's result (`undefined`): it announces the download of
   * the version asked for, then throws on `pack.urls`, and `.catch` calls
   * the callback again. A successful fetch calls back with no version.
   * `callbackThrows` says whether the first call of the callback throws
   * (as the next step of the walk does when it is handed no version); a
   * throw from inside a `.then` also lands in `.catch`.
   */
  function CloneSingleAsWritten(env: Env, name: string, ver: Option<string>, path: Path, st: State, callbackThrows: bool): (r: Chain)
    ensures var c := CloneSingle(env, name, ver, path, st);
      r.first.st == c.st && r.first.err == c.err && r.first.ver.None?
    ensures r.calledAgain <==>
      (name in env.pypi && !Truthy(env.pypi[name].version)) || (CloneSingle(env, name, ver, path, st).err.None? && callbackThrows)
    ensures r.late != [] <==> name in env.pypi && !Truthy(env.pypi[name].version) && !callbackThrows
    ensures |r.late| <= 1
  {
    var c := CloneSingle(env, name, ver, path, st);
    var unpublished := name in env.pypi && !Truthy(env.pypi[name].version);
    Chain(c.(ver := None),
          if unpublished && !callbackThrows then [DownloadingNote(name, Show(ver))] else [],
          unpublished || (c.err.None? && callbackThrows))
  }

  /**
   * For an unpublished release the chain reports the failure, then still
   * announces a download of the version asked for and calls back twice;
   * the corrected model stops at the failure with nothing sent.
   */
  lemma UnpublishedChainGoesOn(env: Env, name: string, ver: Option<string>, path: Path, st: State)
    requires name in env.pypi && !Truthy(env.pypi[name].version)
    ensures var w := CloneSingleAsWritten(env, name, ver, path, st, false);
      w.first.err == Some(Unpublished(name)) && w.first.st == st
      && w.late == [DownloadingNote(name, Show(ver))] && w.calledAgain
    ensures var c := CloneSingle(env, name, ver, path, st);
      c.err == Some(Unpublished(name)) && c.st.updates == st.updates
  {
  }

  /**
   * A published release is saved and downloaded, yet the chain calls back
   * with no version, and when the next step throws for want of one the
   * callback is called a second time; the corrected model hands the
   * settled version on, once.
   */
  lemma SuccessWithoutVersion(env: Env, name: string, ver: Option<string>, path: Path, st: State)
    requires CloneSingle(env, name, ver, path, st).err.None?
    ensures CloneSingle(env, name, ver, path, st).ver == Some(Settled(env.pypi[name], ver))
    ensures CloneSingleAsWritten(env, name, ver, path, st, false).first.ver.None?
    ensures CloneSingleAsWritten(env, name, ver, path, st, true).calledAgain
  {
  }
}
