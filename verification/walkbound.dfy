/**
 * Why the npm walk ends. The walk keeps no visited set: a dependency is
 * cut off only when `isModuleExist` finds a satisfying tarball next to the
 * others. Under the assumptions below every dependency found absent adds a
 * tarball the directory did not list, so the number of published versions
 * whose tarball is not listed yet bounds the depth of the walk, and a depth
 * allowance of one more than the number of published versions is never
 * exhausted.
 *
 * The assumptions, stated as predicates:
 *  - every published version is a release version (digits and dots) that
 *    `semver.valid` accepts and that satisfies itself;
 *  - every manifest names its dependencies without a scope (no `/`) and with
 *    an explicit constraint (neither empty nor `latest`);
 *  - parsing a stringified document gives it back;
 *  - the module asked for at the top has no `/` in its name.
 */
module WalkBound {
  import opened Base
  import opened Storage
  import opened Registry
  import opened Session
  import Text
  import Npm
  import opened Provider

  // ---------------------------------------------------------------------------
  // Assumptions

  predicate ReleaseKeys(env: Env) {
    forall m, v :: m in env.npm && env.npm[m].versions.Some? && v in Keys(env.npm[m].versions.value) ==>
      Npm.ReleaseVersion(v) && env.semver.valid(v) && env.semver.satisfies(v, v)
  }

  /** Unscoped dependency names with explicit constraints. */
  predicate TameDeps(deps: Deps) {
    forall i :: 0 <= i < |deps| ==> '/' !in deps[i].0 && !Unconstrained(Some(deps[i].1))
  }

  predicate TameDoc(d: Doc) {
    (Dependencies(d).Some? ==> TameDeps(Dependencies(d).value))
    && (DevDependencies(d).Some? ==> TameDeps(DevDependencies(d).value))
  }

  predicate TameManifests(env: Env) {
    forall m, i :: m in env.npm && env.npm[m].versions.Some? && 0 <= i < |env.npm[m].versions.value| ==>
      TameDoc(NpmDoc(env.npm[m].versions.value[i].1))
  }

  ghost predicate RoundTrip(json: Json) {
    forall d :: json.parse(json.stringify(d)) == Some(d)
  }

  ghost predicate Tame(env: Env) {
    ReleaseKeys(env) && TameManifests(env) && RoundTrip(env.json)
  }

  /** Package data that parses to nothing or to a tame document. */
  predicate TameData(env: Env, data: Bytes) {
    var o := env.json.parse(data); o.None? || TameDoc(o.value)
  }

  /** Every file below the `packages` folder holds tame data. */
  ghost predicate TameFiles(env: Env, fs: Node, path: Path) {
    forall rest :: FileAt(fs, PackageFolder(path) + rest).Some? ==> TameData(env, FileAt(fs, PackageFolder(path) + rest).value)
  }

  // ---------------------------------------------------------------------------
  // The measure

  /** The tarball names of every published version. */
  function Candidates(env: Env): set<string> {
    set m, v | m in env.npm && env.npm[m].versions.Some? && v in Keys(env.npm[m].versions.value) :: Npm.TarballName(m, v)
  }

  /** How many published versions have no tarball listed in the directory yet. */
  function Measure(env: Env, fs: Node, path: Path): nat {
    |Candidates(env) - NamesAt(fs, path)|
  }

  lemma SubsetCard(a: set<string>, b: set<string>)
    requires a <= b
    ensures |a| <= |b|
  {
    assert b == a + (b - a);
  }

  lemma MeasureBounded(env: Env, fs: Node, path: Path)
    ensures Measure(env, fs, path) <= |Candidates(env)|
  {
    SubsetCard(Candidates(env) - NamesAt(fs, path), Candidates(env));
  }

  lemma MeasureShrinks(env: Env, a: Node, b: Node, path: Path)
    requires Grows(a, b)
    ensures Measure(env, b, path) <= Measure(env, a, path)
  {
    assert NamesAt(a, path) <= NamesAt(b, path);
    SubsetCard(Candidates(env) - NamesAt(b, path), Candidates(env) - NamesAt(a, path));
  }

  lemma MeasureDrops(env: Env, a: Node, b: Node, path: Path, x: string)
    requires Grows(a, b) && x in Candidates(env) && x !in NamesAt(a, path) && x in NamesAt(b, path)
    ensures Measure(env, b, path) < Measure(env, a, path)
  {
    var big := Candidates(env) - NamesAt(a, path);
    var small := Candidates(env) - NamesAt(b, path);
    assert NamesAt(a, path) <= NamesAt(b, path);
    assert small <= big - {x};
    SubsetCard(small, big - {x});
  }

  // ---------------------------------------------------------------------------
  // Where the walk writes

  /** An unscoped release tarball lies directly in the directory, outside `packages`. */
  lemma TarballShape(name: string, v: string, path: Path)
    requires '/' !in name && Npm.ReleaseVersion(v)
    ensures '/' !in Npm.TarballName(name, v)
    ensures Npm.TarballPath(name, v, path) == path + [Npm.TarballName(name, v)]
    ensures forall rest :: Npm.TarballPath(name, v, path) != PackageFolder(path) + rest
  {
    var x := Npm.TarballName(name, v);
    forall k | 0 <= k < |x| ensures x[k] != '/' {
      if k < |name| {
        assert x[k] == name[k];
      } else if |name| < k < |name| + 1 + |v| {
        assert x[k] == v[k - |name| - 1];
      }
    }
    Text.SegmentsOfPlain(x);
    assert x[|name|] == '-';
    assert x != "packages";
    forall rest ensures path + [x] != path + ["packages"] + rest {
      if |rest| == 0 {
        assert (path + [x])[|path|] == x;
        assert (path + ["packages"] + rest)[|path|] == "packages";
      } else {
        assert |path + [x]| != |path + ["packages"] + rest|;
      }
    }
  }

  /** The types module of an unscoped name is unscoped too. */
  lemma TypesNamePlain(name: string)
    requires '/' !in name
    ensures '/' !in Npm.TypesName(name)
  {
    var t := Npm.TypesName(name);
    forall k | 0 <= k < |t| ensures t[k] != '/' {
      if k >= |Npm.TypesPrefix| {
        assert t[k] == name[k - |Npm.TypesPrefix|];
      }
    }
  }

  // ---------------------------------------------------------------------------
  // One fetch

  /** What a fetch may leave below the `packages` folder is tame when what was there was. */
  lemma FetchedTame(env: Env, name: string, v: Option<string>, path: Path, rest: Path, before: Option<Bytes>, after: Option<Bytes>)
    requires Tame(env) && '/' !in name
    requires Npm.FetchedAt(env, name, v, path, PackageFolder(path) + rest, before, after)
    requires before.Some? ==> TameData(env, before.value)
    ensures after.Some? ==> TameData(env, after.value)
  {
    if after != before {
      var vs := env.npm[name].versions.value;
      var x := v.value;
      assert Npm.ReleaseVersion(x);
      TarballShape(name, x, path);
      var m := ManifestOf(vs, x);
      var i :| 0 <= i < |vs| && vs[i] == (x, m);
      assert TameDoc(NpmDoc(vs[i].1));
      assert env.json.parse(env.json.stringify(NpmDoc(m))) == Some(NpmDoc(m));
    }
  }

  /** A fetch of an unscoped module keeps the package files tame. */
  lemma FetchKeepsTame(env: Env, name: string, ver: Option<string>, path: Path, st: State)
    requires Tame(env) && '/' !in name && TameFiles(env, st.fs, path)
    ensures TameFiles(env, Npm.CloneSingle(env, name, ver, path, st).st.fs, path)
  {
    var f := Npm.CloneSingle(env, name, ver, path, st);
    forall rest | FileAt(f.st.fs, PackageFolder(path) + rest).Some?
      ensures TameData(env, FileAt(f.st.fs, PackageFolder(path) + rest).value)
    {
      var q := PackageFolder(path) + rest;
      FetchedTame(env, name, f.ver, path, rest, FileAt(st.fs, q), FileAt(f.st.fs, q));
    }
  }

  /** Fetching the module and its types module keeps the package files tame and never runs out of depth. */
  lemma FetchWithTypesTame(p: Provider, env: Env, name: string, ver: Option<string>, path: Path, st: State)
    requires p.manager == NpmManager && Tame(env) && '/' !in name && TameFiles(env, st.fs, path)
    ensures var t := FetchWithTypes(p, env, name, ver, path, st);
      TameFiles(env, t.st.fs, path) && t.err != Some(OutOfFuel)
  {
    var f := Npm.CloneSingle(env, name, ver, path, st);
    FetchKeepsTame(env, name, ver, path, st);
    if f.err.None? && p.incTypes && !Text.StartsWith(name, Npm.TypesPrefix) {
      TypesNamePlain(name);
      FetchKeepsTame(env, Npm.TypesName(name), f.ver, path, f.st);
    }
  }

  /**
   * For an explicit constraint the version settled on is a published version
   * satisfying it, or the constraint itself.
   */
  lemma ChosenForConstraint(sv: Semver, pkg: NpmPackage, keys: seq<string>, c: string)
    requires !Unconstrained(Some(c))
    ensures var v := Npm.Chosen(sv, pkg, keys, Some(c));
      v == Some(c) || (v.Some? && v.value in keys && sv.satisfies(v.value, c))
  {
    assert Npm.Wanted(pkg, keys, Some(c)) == Some(c);
    Npm.ChosenIsLastSatisfying(sv, pkg, keys, Some(c));
  }

  /** A published version settled on for an explicit constraint is recognised by `isModuleExist`. */
  lemma SettledRecognised(env: Env, d: string, c: string, v: string)
    requires ReleaseKeys(env) && !Unconstrained(Some(c))
    requires d in env.npm && env.npm[d].versions.Some?
    requires var keys := Keys(env.npm[d].versions.value);
      v in keys && Npm.Chosen(env.semver, env.npm[d], keys, Some(c)) == Some(v)
    ensures Npm.Satisfies(env.semver, Npm.TarballName(d, v), d, c)
    ensures Npm.TarballName(d, v) in Candidates(env)
  {
    ChosenForConstraint(env.semver, env.npm[d], Keys(env.npm[d].versions.value), c);
    Npm.TarballRecognised(env.semver, d, v, c);
  }

  /** A successful fetch for an explicit constraint lists a satisfying release tarball. */
  lemma FetchListsRelease(env: Env, d: string, c: string, path: Path, st: State)
    requires ReleaseKeys(env) && '/' !in d && !Unconstrained(Some(c))
    ensures var f := Npm.CloneSingle(env, d, Some(c), path, st);
      f.err.None? ==>
        var x := Npm.TarballName(d, f.ver.value);
        x in Candidates(env) && Npm.Satisfies(env.semver, x, d, c) && x in NamesAt(f.st.fs, path)
  {
    var f := Npm.CloneSingle(env, d, Some(c), path, st);
    if f.err.None? {
      ReleaseListed(env, d, c, f.ver.value, path, f.st.fs);
    }
  }

  /** The tarball of the settled version, once written, is a listed satisfying candidate. */
  lemma ReleaseListed(env: Env, d: string, c: string, v: string, path: Path, fs: Node)
    requires ReleaseKeys(env) && '/' !in d && !Unconstrained(Some(c))
    requires d in env.npm && env.npm[d].versions.Some?
    requires var keys := Keys(env.npm[d].versions.value);
      v in keys && Npm.Chosen(env.semver, env.npm[d], keys, Some(c)) == Some(v)
    requires FileAt(fs, Npm.TarballPath(d, v, path)).Some?
    ensures var x := Npm.TarballName(d, v);
      x in Candidates(env) && Npm.Satisfies(env.semver, x, d, c) && x in NamesAt(fs, path)
  {
    SettledRecognised(env, d, c, v);
    assert Npm.ReleaseVersion(v);
    TarballShape(d, v, path);
    EntryListed(fs, path, Npm.TarballName(d, v));
  }

  /** A satisfying tarball listed after a check that found none is a new candidate name. */
  lemma AbsentThenListed(env: Env, d: string, c: string, path: Path, a: Node, b: Node, x: string)
    requires Npm.IsModuleExist(env.semver, a, d, c, path) == Ok(false) && Grows(a, b)
    requires x in Candidates(env) && Npm.Satisfies(env.semver, x, d, c) && x in NamesAt(b, path)
    ensures Measure(env, b, path) < Measure(env, a, path)
  {
    Npm.IsModuleExistFinds(env.semver, a, d, c, path);
    MeasureDrops(env, a, b, path, x);
  }

  /** A fetch of a dependency found absent lists a tarball that was not listed before. */
  lemma FetchAddsTarball(env: Env, d: string, c: string, path: Path, st: State)
    requires ReleaseKeys(env) && '/' !in d && !Unconstrained(Some(c))
    requires Npm.IsModuleExist(env.semver, st.fs, d, c, path) == Ok(false)
    ensures var f := Npm.CloneSingle(env, d, Some(c), path, st);
      f.err.None? ==> Measure(env, f.st.fs, path) < Measure(env, st.fs, path)
  {
    var f := Npm.CloneSingle(env, d, Some(c), path, st);
    FetchListsRelease(env, d, c, path, st);
    if f.err.None? {
      AbsentThenListed(env, d, c, path, st.fs, f.st.fs, Npm.TarballName(d, f.ver.value));
    }
  }

  // ---------------------------------------------------------------------------
  // The walk

  /** A step of the walk that did not run out of depth and left the package files tame. */
  ghost predicate Fine(env: Env, r: Step, path: Path) {
    r.err != Some(OutOfFuel) && TameFiles(env, r.st.fs, path)
  }

  lemma {:induction false} WalkFrom(p: Provider, env: Env, fuel: nat, name: string, ver: Option<string>, path: Path, st: State)
    requires p.manager == NpmManager && Tame(env) && '/' !in name && TameFiles(env, st.fs, path)
    requires var t := FetchWithTypes(p, env, name, ver, path, st); t.err.None? ==> fuel > Measure(env, t.st.fs, path)
    ensures Fine(env, CloneModule(p, env, fuel, name, ver, path, st), path)
    decreases fuel, 2
  {
    assert Escape(name) == name;
    var t := FetchWithTypes(p, env, name, ver, path, st);
    FetchWithTypesTame(p, env, name, ver, path, st);
    if t.err.None? {
      var st1 := Emit(t.st, DoneNote(name));
      var l := ReadPackage(env.json, name, t.ver, path, st1);
      if l.doc.Ok? {
        var q := PackagePath(name, t.ver, path);
        assert q == PackageFolder(path) + Text.Segments(name + "-" + Show(t.ver) + ".json");
        assert TameDoc(l.doc.value);
        WalkPackage(p, env, fuel, l.doc.value, path, l.st);
      }
    }
  }

  lemma {:induction false} WalkPackage(p: Provider, env: Env, fuel: nat, doc: Doc, path: Path, st: State)
    requires p.manager == NpmManager && Tame(env) && TameDoc(doc) && TameFiles(env, st.fs, path)
    requires fuel > Measure(env, st.fs, path)
    ensures Fine(env, ClonePackage(p, env, fuel, doc, path, st), path)
    decreases fuel, 1
  {
    var a := if p.incDeps && Dependencies(doc).Some? then CloneDeps(p, env, fuel, Dependencies(doc).value, path, st)
             else Step(st, None);
    if p.incDeps && Dependencies(doc).Some? {
      WalkDeps(p, env, fuel, Dependencies(doc).value, path, st);
    }
    if a.err.None? && p.incDevDeps && DevDependencies(doc).Some? {
      MeasureShrinks(env, st.fs, a.st.fs, path);
      WalkDeps(p, env, fuel, DevDependencies(doc).value, path, a.st);
    }
  }

  lemma {:induction false} WalkDeps(p: Provider, env: Env, fuel: nat, deps: Deps, path: Path, st: State)
    requires p.manager == NpmManager && Tame(env) && TameDeps(deps) && TameFiles(env, st.fs, path)
    requires fuel > Measure(env, st.fs, path)
    ensures Fine(env, CloneDeps(p, env, fuel, deps, path, st), path)
    decreases fuel, 0, |deps| + 1
  {
    if |deps| > 0 {
      WalkDep(p, env, fuel, deps[0].0, deps[0].1, path, st);
      var s := CloneDep(p, env, fuel, deps[0].0, deps[0].1, path, st);
      if s.err.None? {
        MeasureShrinks(env, st.fs, s.st.fs, path);
        assert forall i :: 0 <= i < |deps| - 1 ==> deps[1..][i] == deps[i + 1];
        WalkDeps(p, env, fuel, deps[1..], path, s.st);
      }
    }
  }

  lemma {:induction false} WalkDep(p: Provider, env: Env, fuel: nat, d: string, c: string, path: Path, st: State)
    requires p.manager == NpmManager && Tame(env) && '/' !in d && !Unconstrained(Some(c)) && TameFiles(env, st.fs, path)
    requires fuel > Measure(env, st.fs, path)
    ensures Fine(env, CloneDep(p, env, fuel, d, c, path, st), path)
    decreases fuel, 0, 1
  {
    DepCases(p, env, fuel, d, c, path, st);
    if !Fine(env, CloneDep(p, env, fuel, d, c, path, st), path) {
      var less: nat :| Deeper(p, env, fuel, less, d, c, path, st);
      WalkAbsent(p, env, fuel, less, d, c, path, st);
    }
  }

  /**
   * One dependency either ends at once (skipped, present, or unlistable)
   * with the package files untouched, or is walked with one unit less depth
   * that still exceeds the measure after its fetch.
   */
  lemma DepCases(p: Provider, env: Env, fuel: nat, d: string, c: string, path: Path, st: State)
    requires p.manager == NpmManager && Tame(env) && '/' !in d && !Unconstrained(Some(c)) && TameFiles(env, st.fs, path)
    requires fuel > Measure(env, st.fs, path)
    ensures var r := CloneDep(p, env, fuel, d, c, path, st);
      Fine(env, r, path) || exists less: nat :: Deeper(p, env, fuel, less, d, c, path, st)
  {
    var e := DepPresent(p, env, st, d, c, path);
    if IsRemote(c) || e.Err? || e == Ok(true) {
      assert e.Err? ==> e.error.StorageFailure?;
    } else {
      AbsentFetchBound(p, env, fuel, d, c, path, st);
      assert Deeper(p, env, fuel, fuel - 1, d, c, path, st);
    }
  }

  /** The dependency is walked with depth `less`, which exceeds the measure after its fetch. */
  ghost predicate Deeper(p: Provider, env: Env, fuel: nat, less: nat, d: string, c: string, path: Path, st: State) {
    less < fuel && CloneDep(p, env, fuel, d, c, path, st) == CloneModule(p, env, less, d, Some(c), path, st)
    && var t := FetchWithTypes(p, env, d, Some(c), path, st); t.err.None? ==> less > Measure(env, t.st.fs, path)
  }

  /** The walk from a dependency found absent, with the depth `less` left after it. */
  lemma {:induction false} WalkAbsent(p: Provider, env: Env, fuel: nat, less: nat, d: string, c: string, path: Path, st: State)
    requires p.manager == NpmManager && Tame(env) && '/' !in d && TameFiles(env, st.fs, path)
    requires Deeper(p, env, fuel, less, d, c, path, st)
    ensures Fine(env, CloneDep(p, env, fuel, d, c, path, st), path)
    decreases fuel, 0, 0
  {
    WalkFrom(p, env, less, d, Some(c), path, st);
  }

  /** Once a dependency found absent is fetched, one unit less depth still exceeds the measure. */
  lemma AbsentFetchBound(p: Provider, env: Env, fuel: nat, d: string, c: string, path: Path, st: State)
    requires p.manager == NpmManager && ReleaseKeys(env) && '/' !in d && !Unconstrained(Some(c))
    requires Npm.IsModuleExist(env.semver, st.fs, d, c, path) == Ok(false)
    requires fuel > Measure(env, st.fs, path)
    ensures var t := FetchWithTypes(p, env, d, Some(c), path, st);
      t.err.None? ==> fuel - 1 > Measure(env, t.st.fs, path)
  {
    FetchAddsTarball(env, d, c, path, st);
    var f := Npm.CloneSingle(env, d, Some(c), path, st);
    var t := FetchWithTypes(p, env, d, Some(c), path, st);
    if t.err.None? {
      assert Grows(f.st.fs, t.st.fs) by {
        if !p.incTypes { GrowsRefl(f.st.fs); }
      }
      MeasureShrinks(env, f.st.fs, t.st.fs, path);
    }
  }

  // ---------------------------------------------------------------------------
  // The bound

  /** Below a fresh, empty directory there are no package files yet. */
  lemma FreshDirTame(env: Env, fs: Node, path: Path)
    requires Lookup(fs, path) == Some(Dir([]))
    ensures TameFiles(env, fs, path)
  {
    forall rest ensures FileAt(fs, PackageFolder(path) + rest).None? {
      assert PackageFolder(path) + rest == path + (["packages"] + rest);
      LookupConcat(fs, path, ["packages"] + rest);
      assert Child(Dir([]), "packages").None?;
    }
  }

  /**
   * With one more unit of depth than there are published versions, the npm
   * walk from an unscoped module never fails for lack of depth.
   */
  lemma WalkBounded(p: Provider, env: Env, name: string, ver: Option<string>, path: Path, st: State)
    requires p.manager == NpmManager && Tame(env) && '/' !in name && TameFiles(env, st.fs, path)
    ensures CloneModule(p, env, |Candidates(env)| + 1, name, ver, path, st).err != Some(OutOfFuel)
  {
    var t := FetchWithTypes(p, env, name, ver, path, st);
    MeasureBounded(env, t.st.fs, path);
    WalkFrom(p, env, |Candidates(env)| + 1, name, ver, path, st);
  }
}
