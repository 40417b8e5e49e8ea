/**
 * What one clone request accumulates: the storage, the ordered stream of
 * updates sent to `cbUpdate`, and the PyPI provider's download log. Also the
 * errors that reach the callbacks.
 */
module Session {
  import opened Base
  import opened Storage
  import Text

  datatype Color = Gray | Green | Red | NoColor

  /** The `(typeOfUpdate, content)` pairs passed to `cbUpdate`. */
  datatype Update =
    | Regular(message: string, color: Color)
    | CriticalError(message: string)
    | DownloadProgress(received: nat, total: int)
    | FinalDownloadToClient

  /** An error's `statusCode` property as JavaScript would compare it. */
  datatype StatusCode = NoStatus | Numeric(code: int) | Textual(text: string)

  datatype Error =
    | RegistryFailure(name: string, status: int)
    | Unpublished(name: string)
    | NoCompatibleVersion(name: string, ver: Option<string>)
    | StorageFailure(code: FsError)
    | PackageFileMissing(path: string)
    | MalformedPackage(path: string)
    | AbstractMethod
    | OutOfFuel

  function CodeName(e: FsError): string {
    match e
    case ENOENT => "ENOENT"
    case EEXIST => "EEXIST"
    case ENOTDIR => "ENOTDIR"
    case EISDIR => "EISDIR"
  }

  /** The error's `message`. */
  function Message(e: Error): string {
    match e
    case RegistryFailure(m, _) => "registry request failed for " + m
    case Unpublished(m) => "Module " + m + " is unpublished"
    case NoCompatibleVersion(m, v) => "No compatibale version was found for " + m + " - " + Show(v)
    case StorageFailure(c) => CodeName(c)
    case PackageFileMissing(p) => "package file couldn't be found: " + p
    case MalformedPackage(p) => "malformed package file: " + p
    case AbstractMethod => "Abstract method!"
    case OutOfFuel => "dependency depth bound reached"
  }

  /** `err.toString()` */
  function ErrorText(e: Error): string {
    "Error: " + Message(e)
  }

  /** The registry client reports a numeric HTTP status; no other error carries one. */
  function StatusOf(e: Error): StatusCode {
    match e
    case RegistryFailure(_, s) => Numeric(s)
    case _ => NoStatus
  }

  /** One `{module, version}` record of the PyPI provider's `_downloaded` log. */
  datatype Release = Release(name: string, version: string)

  datatype State = State(fs: Node, updates: seq<Update>, downloaded: seq<Release>)

  function Emit(st: State, u: Update): State {
    st.(updates := st.updates + [u])
  }

  function EmitAll(st: State, us: seq<Update>): State {
    st.(updates := st.updates + us)
  }

  /** The outcome of a provider step: the state it leaves and the error passed to its callback. */
  datatype Step = Step(st: State, err: Option<Error>)

  /** `cloneSingleModule`'s callback `(err, ver)` together with the state it leaves. */
  datatype Fetched = Fetched(st: State, err: Option<Error>, ver: Option<string>)

  /** The payload bytes the client counts as received after each chunk. */
  function ChunkProgress(chunks: seq<Bytes>, total: int): seq<Update> {
    seq(|chunks|, i requires 0 <= i < |chunks| => DownloadProgress(TotalLength(chunks[..i + 1]), total))
  }

  // ---------------------------------------------------------------------------
  // What both providers do alike

  /** `getPackageFolder`: the `packages` directory, one segment below `path`. */
  function PackageFolder(path: Path): (r: Path)
    ensures r == path + ["packages"]
  {
    Text.SegmentsOfPlain("packages");
    Join(path, "packages")
  }

  /**
   * `getPackagePath`: the package document of `name` at `ver` inside
   * `packages`; an absent version is rendered "undefined". Without slashes it
   * sits directly in `packages`.
   */
  function PackagePath(name: string, ver: Option<string>, path: Path): (r: Path)
    ensures PackageFolder(path) < r
    ensures '/' !in name && '/' !in Show(ver) ==> r == PackageFolder(path) + [name + "-" + Show(ver) + ".json"]
  {
    var f := name + "-" + Show(ver) + ".json";
    assert f[|f| - 5..] == ".json";
    Text.SegmentsSuffix(f, ".json");
    Join(PackageFolder(path), f)
  }

  /** `mkdir(folder)` either makes the folder or finds it already there as a directory. */
  predicate FolderReady(n: Node, folder: Path) {
    IsDirAt(n, folder) || (|folder| > 0 && IsDirAt(n, Parent(folder)) && !Exists(n, folder))
  }

  /** `!ver || ver === 'latest'`: the request leaves the version to the registry. */
  predicate Unconstrained(ver: Option<string>) {
    !Truthy(ver) || ver == Some("latest")
  }

  function DownloadingNote(name: string, v: string): Update {
    Regular("downloading tarball of " + name + "-" + v, Gray)
  }

  /**
   * `mkdir(folder)` tolerating EEXIST, then `writeFile(file, data)`: how both
   * providers save a package document.
   */
  function SavePackageFile(st: State, folder: Path, file: Path, data: Bytes): (r: Step)
    ensures |file| > 0 && Parent(file) == folder ==>
      (r.err.None? <==> FolderReady(st.fs, folder) && !IsDirAt(st.fs, file))
    ensures forall q :: IsDirAt(r.st.fs, q) ==> IsDirAt(st.fs, q) || q == folder
    ensures r.st.updates == st.updates && r.st.downloaded == st.downloaded
    ensures r.err.Some? ==> r.err.value.StorageFailure?
    ensures r.err.None? ==> FileAt(r.st.fs, file) == Some(data)
    ensures FileAt(r.st.fs, file) == FileAt(st.fs, file) || FileAt(r.st.fs, file) == Some(data)
    ensures forall q :: q != file ==> FileAt(r.st.fs, q) == FileAt(st.fs, q)
    ensures Grows(st.fs, r.st.fs)
    ensures WF(st.fs) ==> WF(r.st.fs)
  {
    match Mkdir(st.fs, folder)
    case Err(e) =>
      ExistsInDir(st.fs, folder);
      if e != EEXIST then Step(st, Some(StorageFailure(e)))
      else WriteInto(st, file, data)
    case Ok(fs1) =>
      MkdirNoNewDirs(st.fs, folder);
      InsideFresh(st.fs, folder, file);
      WriteInto(st.(fs := fs1), file, data)
  }

  /** `writeFile(file, data)`: it succeeds exactly when the parent is a directory and `file` is not. */
  function WriteInto(st: State, file: Path, data: Bytes): (r: Step)
    ensures r.err.None? <==> |file| > 0 && IsDirAt(st.fs, Parent(file)) && !IsDirAt(st.fs, file)
    ensures r.err.Some? ==> r.st == st
    ensures forall q :: IsDirAt(r.st.fs, q) <==> IsDirAt(st.fs, q)
    ensures r.st.updates == st.updates && r.st.downloaded == st.downloaded
    ensures r.err.Some? ==> r.err.value.StorageFailure?
    ensures r.err.None? ==> FileAt(r.st.fs, file) == Some(data)
    ensures FileAt(r.st.fs, file) == FileAt(st.fs, file) || FileAt(r.st.fs, file) == Some(data)
    ensures forall q :: q != file ==> FileAt(r.st.fs, q) == FileAt(st.fs, q)
    ensures Grows(st.fs, r.st.fs)
    ensures WF(st.fs) ==> WF(r.st.fs)
  {
    match WriteFile(st.fs, file, data)
    case Err(e) => Step(st, Some(StorageFailure(e)))
    case Ok(fs1) =>
      WriteFileNoNewDirs(st.fs, file, data);
      Step(st.(fs := fs1), None)
  }
}
