/**
 * The registries as pure values. The network is replaced by finite maps
 * from the name used in the registry URL to the registry's response; a
 * payload download is the chunks the server sends plus its content-length
 * header. The semantic-versioning library and JSON (de)serialisation are
 * library code and stay abstract: they are function-valued fields.
 */
module Registry {
  import opened Base
  import opened Storage

  /** `semver.valid` and `semver.satisfies`, left abstract. */
  datatype Semver = Semver(valid: string -> bool, satisfies: (string, string) -> bool)

  /** A payload as the client receives it: the content-length header and the data chunks. */
  datatype Download = Download(contentLength: int, chunks: seq<Bytes>)

  /** A dependency map in `Object.keys` order: name to version constraint. */
  type Deps = seq<(string, string)>

  /** One version's manifest in an npm registry response. */
  datatype Manifest = Manifest(dependencies: Option<Deps>, devDependencies: Option<Deps>, tarball: Download)

  /**
   * An npm registry response: the `versions` object in key order (absent for
   * an unpublished module) and the `latest` dist-tag.
   */
  datatype NpmPackage = NpmPackage(versions: Option<seq<(string, Manifest)>>, latest: Option<string>)

  /** One entry of a PyPI response's `urls`. */
  datatype Distribution = Distribution(filename: string, download: Download)

  /** A PyPI JSON response: `info.version` and the `urls` of that release. */
  datatype PypiPackage = PypiPackage(version: Option<string>, urls: seq<Distribution>)

  /** The JSON documents the providers write into `packages` folders. */
  datatype Doc = NpmDoc(manifest: Manifest) | PypiDoc(release: PypiPackage)

  /** `JSON.stringify` and `JSON.parse` on those documents, left abstract. */
  datatype Json = Json(stringify: Doc -> Bytes, parse: Bytes -> Option<Doc>)

  /** Everything outside the program the walk consults. */
  datatype Env = Env(npm: map<string, NpmPackage>, pypi: map<string, PypiPackage>, semver: Semver, json: Json)

  /** The `dependencies` field of a parsed package document; PyPI responses have none. */
  function Dependencies(d: Doc): Option<Deps> {
    match d
    case NpmDoc(m) => m.dependencies
    case PypiDoc(_) => None
  }

  /** The `devDependencies` field of a parsed package document. */
  function DevDependencies(d: Doc): Option<Deps> {
    match d
    case NpmDoc(m) => m.devDependencies
    case PypiDoc(_) => None
  }

  /** `Object.keys(pkg.versions)` */
  function Keys(vs: seq<(string, Manifest)>): (r: seq<string>)
    ensures |r| == |vs| && forall i :: 0 <= i < |vs| ==> r[i] == vs[i].0
  {
    seq(|vs|, i requires 0 <= i < |vs| => vs[i].0)
  }

  /** `pkg.versions[v]` for a key that is present: the first entry with that key. */
  function ManifestOf(vs: seq<(string, Manifest)>, v: string): (m: Manifest)
    requires v in Keys(vs)
    ensures exists i :: 0 <= i < |vs| && vs[i] == (v, m)
  {
    if vs[0].0 == v then vs[0].1
    else
      assert v in Keys(vs[1..]) by {
        var i :| 0 <= i < |vs| && Keys(vs)[i] == v;
        assert Keys(vs[1..])[i - 1] == v;
      }
      ManifestOf(vs[1..], v)
  }
}
