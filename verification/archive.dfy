/**
 * `getDownloadStreamFromBasePath`: every regular file below the base path
 * becomes one tar entry named after its full path, directories are walked
 * into, and the stream's size is the number of payload bytes read.
 */
module Archive {
  import opened Base
  import opened Storage
  import opened Session

  /** One `pack.entry({ name }, contents)` call. */
  datatype TarEntry = TarEntry(name: string, data: Bytes)

  /** What the client downloads: the tar entries and the size announced for the stream. */
  datatype Archive = Archive(entries: seq<TarEntry>, size: nat)

  /** The state packing leaves, and the archive when the base path could be listed. */
  datatype Packing = Packing(st: State, archive: Option<Archive>)

  /**
   * The entries for the tree `n` found at `at`, depth first in listing
   * order. The source packs sibling entries concurrently, so this order is
   * one of the orders it may produce.
   */
  function PackNode(n: Node, at: Path): (r: seq<TarEntry>)
    ensures forall e :: e in r ==> |e.name| > 0 && e.name[0] == '/'
    decreases n
  {
    match n
    case File(d) => [TarEntry(Render(at), d)]
    case Dir(es) => PackList(es, at)
  }

  function PackList(es: seq<Entry>, at: Path): (r: seq<TarEntry>)
    ensures forall e :: e in r ==> |e.name| > 0 && e.name[0] == '/'
    decreases es
  {
    if |es| == 0 then [] else PackNode(es[0].node, at + [es[0].name]) + PackList(es[1..], at)
  }

  /** The `totalSize` accumulated while reading every file below `n`. */
  function TreeSize(n: Node): nat
    decreases n
  {
    match n
    case File(d) => |d|
    case Dir(es) => ListSize(es)
  }

  function ListSize(es: seq<Entry>): nat
    decreases es
  {
    if |es| == 0 then 0 else TreeSize(es[0].node) + ListSize(es[1..])
  }

  /** The payload bytes carried by a list of entries. */
  function DataSize(entries: seq<TarEntry>): nat {
    if |entries| == 0 then 0 else |entries[0].data| + DataSize(entries[1..])
  }

  function PackedNote(): Update {
    Regular("finished packing, starting download", Green)
  }

  // ---------------------------------------------------------------------------
  // Packing

  /**
   * `getDownloadStreamFromBasePath`: a base path that cannot be listed throws
   * before anything is sent; otherwise the whole tree is packed, the packed
   * note and the final-download update follow, and the announced size is
   * the total payload of the entries. The completion callback is never
   * called.
   */
  function GetDownloadStream(st: State, path: Path): (r: Packing)
    ensures r.st.fs == st.fs && r.st.downloaded == st.downloaded
    ensures !IsDirAt(st.fs, path) ==> r == Packing(st, None)
    ensures IsDirAt(st.fs, path) ==>
      r.archive.Some? && r.st.updates == st.updates + [PackedNote(), FinalDownloadToClient]
    ensures r.archive.Some? ==> r.archive.value.size == DataSize(r.archive.value.entries)
  {
    match Lookup(st.fs, path)
    case Some(Dir(es)) =>
      PackListSize(es, path);
      Packing(EmitAll(st, [PackedNote(), FinalDownloadToClient]), Some(Archive(PackList(es, path), ListSize(es))))
    case _ => Packing(st, None)
  }

  // ---------------------------------------------------------------------------
  // Sizes

  lemma {:induction false} DataSizeAppend(a: seq<TarEntry>, b: seq<TarEntry>)
    ensures DataSize(a + b) == DataSize(a) + DataSize(b)
  {
    if |a| > 0 {
      assert (a + b)[0] == a[0] && (a + b)[1..] == a[1..] + b;
      DataSizeAppend(a[1..], b);
    } else {
      assert a + b == b;
    }
  }

  /** The bytes read while walking are the bytes packed. */
  lemma {:induction false} PackSize(n: Node, at: Path)
    ensures DataSize(PackNode(n, at)) == TreeSize(n)
    decreases n
  {
    match n
    case File(d) =>
    case Dir(es) => PackListSize(es, at);
  }

  lemma {:induction false} PackListSize(es: seq<Entry>, at: Path)
    ensures DataSize(PackList(es, at)) == ListSize(es)
    decreases es
  {
    if |es| > 0 {
      PackSize(es[0].node, at + [es[0].name]);
      PackListSize(es[1..], at);
      DataSizeAppend(PackNode(es[0].node, at + [es[0].name]), PackList(es[1..], at));
    }
  }

  // ---------------------------------------------------------------------------
  // Every file is packed, and only files are

  /** The entries of the `k`-th child are among the entries of the directory. */
  lemma {:induction false} PackListHas(es: seq<Entry>, at: Path, k: nat, e: TarEntry)
    requires k < |es| && e in PackNode(es[k].node, at + [es[k].name])
    ensures e in PackList(es, at)
    decreases k
  {
    if k > 0 {
      PackListHas(es[1..], at, k - 1, e);
    }
  }

  /** An entry of a directory comes from one of its children. */
  lemma {:induction false} PackListFrom(es: seq<Entry>, at: Path, e: TarEntry)
    requires e in PackList(es, at)
    ensures exists k :: 0 <= k < |es| && e in PackNode(es[k].node, at + [es[k].name])
    decreases |es|
  {
    if e !in PackNode(es[0].node, at + [es[0].name]) {
      PackListFrom(es[1..], at, e);
      var k :| 0 <= k < |es[1..]| && e in PackNode(es[1..][k].node, at + [es[1..][k].name]);
      assert es[1..][k] == es[k + 1];
    }
  }

  /** Every regular file below `n` has an entry named after its path, holding its contents. */
  lemma {:induction false} PackComplete(n: Node, at: Path, q: Path)
    requires FileAt(n, q).Some?
    ensures TarEntry(Render(at + q), FileAt(n, q).value) in PackNode(n, at)
    decreases n
  {
    if |q| == 0 {
      assert at + q == at;
    } else {
      var es := n.entries;
      var k := IndexOfName(es, q[0]);
      assert Child(n, q[0]) == Some(es[k].node);
      assert FileAt(n, q) == FileAt(es[k].node, q[1..]);
      PackComplete(es[k].node, at + [q[0]], q[1..]);
      assert at + [q[0]] + q[1..] == at + q;
      PackListHas(es, at, k, TarEntry(Render(at + q), FileAt(n, q).value));
    }
  }

  /** In a tree with unique names, every entry is the regular file at the path it is named after. */
  lemma {:induction false} PackSound(n: Node, at: Path, e: TarEntry)
    requires WF(n) && e in PackNode(n, at)
    ensures exists q :: e.name == Render(at + q) && FileAt(n, q) == Some(e.data)
    decreases n
  {
    match n
    case File(d) =>
      assert at + [] == at;
      assert e.name == Render(at + []) && FileAt(n, []) == Some(e.data);
    case Dir(es) =>
      PackListFrom(es, at, e);
      var k :| 0 <= k < |es| && e in PackNode(es[k].node, at + [es[k].name]);
      PackSound(es[k].node, at + [es[k].name], e);
      var q :| e.name == Render(at + [es[k].name] + q) && FileAt(es[k].node, q) == Some(e.data);
      SoundThroughChild(es, at, k, e, q);
  }

  /** An entry found at a path below the `k`-th child is found at the longer path below the directory. */
  lemma SoundThroughChild(es: seq<Entry>, at: Path, k: nat, e: TarEntry, q: Path)
    requires UniqueNames(es) && k < |es|
    requires e.name == Render(at + [es[k].name] + q) && FileAt(es[k].node, q) == Some(e.data)
    ensures exists q2 :: e.name == Render(at + q2) && FileAt(Dir(es), q2) == Some(e.data)
  {
    var q2 := [es[k].name] + q;
    FileBelowChild(es, k, q);
    assert at + [es[k].name] + q == at + q2;
    assert e.name == Render(at + q2) && FileAt(Dir(es), q2) == Some(e.data);
  }

  /** With unique names, the path through the `k`-th entry leads into that entry. */
  lemma FileBelowChild(es: seq<Entry>, k: nat, q: Path)
    requires UniqueNames(es) && k < |es|
    ensures FileAt(Dir(es), [es[k].name] + q) == FileAt(es[k].node, q)
  {
    assert IndexOfName(es, es[k].name) == k;
    assert ([es[k].name] + q)[0] == es[k].name;
    assert ([es[k].name] + q)[1..] == q;
  }

  lemma {:induction false} LookupWF(n: Node, p: Path)
    requires WF(n) && Lookup(n, p).Some?
    ensures WF(Lookup(n, p).value)
    decreases |p|
  {
    if |p| > 0 {
      var es := n.entries;
      var k := IndexOfName(es, p[0]);
      assert Child(n, p[0]) == Some(es[k].node);
      LookupWF(es[k].node, p[1..]);
    }
  }

  // ---------------------------------------------------------------------------
  // No file is packed twice

  /** No two entries carry the same name. */
  predicate DistinctNames(entries: seq<TarEntry>) {
    forall i, j :: 0 <= i < j < |entries| ==> entries[i].name != entries[j].name
  }

  lemma {:induction false} RenderSegmentsAppend(a: Path, b: Path)
    ensures RenderSegments(a + b) == RenderSegments(a) + RenderSegments(b)
    decreases |a|
  {
    if |a| == 0 {
      assert a + b == b;
    } else {
      assert (a + b)[0] == a[0] && (a + b)[1..] == a[1..] + b;
      RenderSegmentsAppend(a[1..], b);
    }
  }

  /** Every entry of the tree at `at` is named after a path below `at`. */
  lemma {:induction false} PackNamed(n: Node, at: Path, e: TarEntry) returns (q: Path)
    requires e in PackNode(n, at)
    ensures e.name == Render(at + q)
    decreases n
  {
    match n
    case File(d) =>
      q := [];
      assert at + q == at;
    case Dir(es) =>
      PackListFrom(es, at, e);
      var k :| 0 <= k < |es| && e in PackNode(es[k].node, at + [es[k].name]);
      var q1 := PackNamed(es[k].node, at + [es[k].name], e);
      q := [es[k].name] + q1;
      StepInto(at, es[k].name, q1);
  }

  lemma StepInto(at: Path, s: string, q: Path)
    ensures at + [s] + q == at + ([s] + q)
  {
  }

  /** An entry of the `k`-th child is named `<at>/<name>` followed by nothing or by a slash. */
  lemma ChildEntryName(es: seq<Entry>, at: Path, k: nat, e: TarEntry) returns (r: string)
    requires k < |es| && e in PackNode(es[k].node, at + [es[k].name])
    ensures e.name == (RenderSegments(at) + "/") + (es[k].name + r) && (r == "" || r[0] == '/')
  {
    var q := PackNamed(es[k].node, at + [es[k].name], e);
    var s := [es[k].name] + q;
    assert at + [es[k].name] + q == at + s;
    RenderSegmentsAppend(at, s);
    assert s[0] == es[k].name && s[1..] == q;
    r := RenderSegments(q);
    assert RenderSegments(s) == "/" + es[k].name + r;
    assert "/" + es[k].name + r == "/" + (es[k].name + r);
  }

  /** Two different slash-free names stay different when each is followed by nothing or by a slash. */
  lemma SegmentsDiffer(s1: string, r1: string, s2: string, r2: string)
    requires '/' !in s1 && '/' !in s2 && s1 != s2
    requires (r1 == "" || r1[0] == '/') && (r2 == "" || r2[0] == '/')
    ensures s1 + r1 != s2 + r2
  {
    if |s1| < |s2| {
      assert (s2 + r2)[|s1|] == s2[|s1|] && s2[|s1|] in s2;
      if r1 != "" {
        assert (s1 + r1)[|s1|] == r1[0];
      }
    } else if |s2| < |s1| {
      assert (s1 + r1)[|s2|] == s1[|s2|] && s1[|s2|] in s1;
      if r2 != "" {
        assert (s2 + r2)[|s2|] == r2[0];
      }
    } else {
      assert (s1 + r1)[..|s1|] == s1;
      assert (s2 + r2)[..|s1|] == s2;
    }
  }

  lemma PrefixCancel(pre: string, x: string, y: string)
    requires x != y
    ensures pre + x != pre + y
  {
    assert (pre + x)[|pre|..] == x && (pre + y)[|pre|..] == y;
  }

  /** With unique, slash-free names, entries of two different children never share a name. */
  lemma ChildrenApart(es: seq<Entry>, at: Path, k1: nat, k2: nat, e1: TarEntry, e2: TarEntry)
    requires UniqueNames(es) && PlainNames(Dir(es))
    requires k1 < |es| && k2 < |es| && k1 != k2
    requires e1 in PackNode(es[k1].node, at + [es[k1].name])
    requires e2 in PackNode(es[k2].node, at + [es[k2].name])
    ensures e1.name != e2.name
  {
    var s1, s2 := es[k1].name, es[k2].name;
    assert '/' !in s1 && '/' !in s2;
    assert s1 != s2 by {
      if k1 < k2 {
        assert es[k1].name != es[k2].name;
      } else {
        assert es[k2].name != es[k1].name;
      }
    }
    var r1 := ChildEntryName(es, at, k1, e1);
    var r2 := ChildEntryName(es, at, k2, e2);
    SegmentsDiffer(s1, r1, s2, r2);
    var pre := RenderSegments(at) + "/";
    PrefixCancel(pre, s1 + r1, s2 + r2);
  }

  lemma DistinctAppend(a: seq<TarEntry>, b: seq<TarEntry>)
    requires DistinctNames(a) && DistinctNames(b)
    requires forall x, y :: x in a && y in b ==> x.name != y.name
    ensures DistinctNames(a + b)
  {
    forall i, j | 0 <= i < j < |a + b| ensures (a + b)[i].name != (a + b)[j].name {
      if j < |a| {
        assert (a + b)[i] == a[i] && (a + b)[j] == a[j];
      } else if i >= |a| {
        assert (a + b)[i] == b[i - |a|] && (a + b)[j] == b[j - |a|];
      } else {
        assert (a + b)[i] == a[i] && (a + b)[j] == b[j - |a|];
      }
    }
  }

  /** With unique, slash-free names, no two entries of a tree share a name. */
  lemma {:induction false} PackDistinct(n: Node, at: Path)
    requires WF(n) && PlainNames(n)
    ensures DistinctNames(PackNode(n, at))
    decreases n
  {
    match n
    case File(_) =>
    case Dir(es) => PackListDistinct(es, at);
  }

  lemma {:induction false} PackListDistinct(es: seq<Entry>, at: Path)
    requires WF(Dir(es)) && PlainNames(Dir(es))
    ensures DistinctNames(PackList(es, at))
    decreases es
  {
    if |es| > 0 {
      var a := PackNode(es[0].node, at + [es[0].name]);
      var b := PackList(es[1..], at);
      PackDistinct(es[0].node, at + [es[0].name]);
      assert forall i :: 0 <= i < |es| - 1 ==> es[1..][i] == es[i + 1];
      assert WF(Dir(es[1..])) && PlainNames(Dir(es[1..]));
      PackListDistinct(es[1..], at);
      forall x, y | x in a && y in b ensures x.name != y.name {
        PackListFrom(es[1..], at, y);
        var k :| 0 <= k < |es[1..]| && y in PackNode(es[1..][k].node, at + [es[1..][k].name]);
        ChildrenApart(es, at, 0, k + 1, x, y);
      }
      DistinctAppend(a, b);
    }
  }

  lemma {:induction false} LookupPlain(n: Node, p: Path)
    requires PlainNames(n) && Lookup(n, p).Some?
    ensures PlainNames(Lookup(n, p).value)
    decreases |p|
  {
    if |p| > 0 {
      var es := n.entries;
      var k := IndexOfName(es, p[0]);
      assert Child(n, p[0]) == Some(es[k].node);
      LookupPlain(es[k].node, p[1..]);
    }
  }

  /**
   * The archive of a listable base path holds an entry for every regular
   * file below it, named after the file's full path and holding its
   * contents; with unique names it holds nothing else, and when no name
   * holds a slash either, it holds each of them once.
   */
  lemma ArchiveHoldsFiles(st: State, path: Path)
    requires IsDirAt(st.fs, path)
    ensures var a := GetDownloadStream(st, path).archive.value;
      (forall q :: FileAt(st.fs, path + q).Some? ==> TarEntry(Render(path + q), FileAt(st.fs, path + q).value) in a.entries)
      && (WF(st.fs) ==> forall e :: e in a.entries ==> exists q :: e.name == Render(path + q) && FileAt(st.fs, path + q) == Some(e.data))
      && (WF(st.fs) && PlainNames(st.fs) ==> DistinctNames(a.entries))
  {
    var d := Lookup(st.fs, path).value;
    assert GetDownloadStream(st, path).archive.value.entries == PackNode(d, path);
    forall q | FileAt(st.fs, path + q).Some?
      ensures TarEntry(Render(path + q), FileAt(st.fs, path + q).value) in PackNode(d, path)
    {
      LookupConcat(st.fs, path, q);
      PackComplete(d, path, q);
    }
    if WF(st.fs) {
      LookupWF(st.fs, path);
      forall e | e in PackNode(d, path)
        ensures exists q :: e.name == Render(path + q) && FileAt(st.fs, path + q) == Some(e.data)
      {
        PackSound(d, path, e);
        var q :| e.name == Render(path + q) && FileAt(d, q) == Some(e.data);
        LookupConcat(st.fs, path, q);
      }
      if PlainNames(st.fs) {
        LookupPlain(st.fs, path);
        PackDistinct(d, path);
      }
    }
  }
}
