/**
 * The storage the providers write into: an in-memory directory tree with the
 * capability set the source uses (exists, mkdir, readdir, stat, readFile,
 * writeFile, join). Directory entries are kept in one fixed order, a new
 * name after the others; no property stated here depends on that order.
 */
module Storage {
  import opened Base
  import Text

  type Byte = b: int | 0 <= b < 256
  type Bytes = seq<Byte>

  /** An absolute path as its sequence of segments; the root "/" is `[]`. */
  type Path = seq<string>

  datatype Node = File(data: Bytes) | Dir(entries: seq<Entry>)
  datatype Entry = Entry(name: string, node: Node)

  datatype FsError = ENOENT | EEXIST | ENOTDIR | EISDIR

  /** `fileSystem.join(p, s)`: the non-empty slash-separated segments of `s` appended to `p`. */
  function Join(p: Path, s: string): (r: Path)
    ensures p <= r
    ensures forall i :: |p| <= i < |r| ==> r[i] != "" && '/' !in r[i]
    ensures '/' !in s && s != "" ==> r == p + [s]
  {
    assert '/' !in s && s != "" ==> Text.Segments(s) == [s] by {
      if '/' !in s && s != "" { Text.SegmentsOfPlain(s); }
    }
    p + Text.Segments(s)
  }

  /** The textual form of a path: "/" for the root, "/a/b" otherwise. */
  function Render(p: Path): string {
    if |p| == 0 then "/" else RenderSegments(p)
  }

  function RenderSegments(p: Path): string {
    if |p| == 0 then "" else "/" + p[0] + RenderSegments(p[1..])
  }

  function Parent(p: Path): Path
    requires |p| > 0
  {
    p[..|p| - 1]
  }

  // ---------------------------------------------------------------------------
  // Directory entries
  // ---------------------------------------------------------------------------

  function NameSet(es: seq<Entry>): set<string> {
    set i | 0 <= i < |es| :: es[i].name
  }

  /** The names of a directory's entries, in order. */
  function Names(es: seq<Entry>): seq<string> {
    seq(|es|, i requires 0 <= i < |es| => es[i].name)
  }

  /** The index of the first entry called `name`, or -1. */
  function IndexOfName(es: seq<Entry>, name: string): (k: int)
    ensures -1 <= k < |es|
    ensures k >= 0 ==> es[k].name == name
    ensures forall j :: 0 <= j < |es| && (k < 0 || j < k) ==> es[j].name != name
  {
    if |es| == 0 then -1
    else if es[0].name == name then 0
    else
      var k := IndexOfName(es[1..], name);
      if k < 0 then -1 else k + 1
  }

  function Child(n: Node, name: string): Option<Node> {
    match n
    case File(_) => None
    case Dir(es) =>
      var k := IndexOfName(es, name);
      if k < 0 then None else Some(es[k].node)
  }

  /** Replace the entry called `name` in place, or append it when there is none. */
  function SetChild(es: seq<Entry>, name: string, c: Node): seq<Entry> {
    var k := IndexOfName(es, name);
    if k < 0 then es + [Entry(name, c)] else es[k := Entry(name, c)]
  }

  lemma ChildSetChild(es: seq<Entry>, a: string, c: Node, b: string)
    ensures Child(Dir(SetChild(es, a, c)), b) == if a == b then Some(c) else Child(Dir(es), b)
    ensures NameSet(SetChild(es, a, c)) == NameSet(es) + {a}
  {
    var es' := SetChild(es, a, c);
    var k := IndexOfName(es, a);
    assert forall j :: 0 <= j < |es| ==> es'[j].name == es[j].name;
    var kb := IndexOfName(es, b);
    var kb' := IndexOfName(es', b);
    if a == b {
      if k < 0 {
        assert es'[|es|].name == a;
      } else {
        assert es'[k].name == a;
      }
    } else if kb >= 0 {
      assert es'[kb].name == b;
      assert kb' == kb;
    } else {
      assert kb' < 0;
    }
    assert NameSet(es') == NameSet(es) + {a} by {
      forall x | x in NameSet(es') ensures x in NameSet(es) + {a} {
        var i :| 0 <= i < |es'| && es'[i].name == x;
        if i < |es| && es'[i].name == es[i].name {
          assert x in NameSet(es);
        }
      }
      forall x | x in NameSet(es) + {a} ensures x in NameSet(es') {
        if x == a {
          if k < 0 {
            assert es'[|es|].name == a;
          } else {
            assert es'[k].name == a;
          }
        } else {
          var i :| 0 <= i < |es| && es[i].name == x;
          assert es'[i].name == x;
        }
      }
    }
  }

  // ---------------------------------------------------------------------------
  // Lookup and update
  // ---------------------------------------------------------------------------

  function Lookup(n: Node, p: Path): Option<Node>
    decreases |p|
  {
    if |p| == 0 then Some(n)
    else
      match Child(n, p[0])
      case None => None
      case Some(c) => Lookup(c, p[1..])
  }

  predicate IsDirAt(n: Node, p: Path) {
    Lookup(n, p).Some? && Lookup(n, p).value.Dir?
  }

  /** The contents of the regular file at `p`, if there is one. */
  function FileAt(n: Node, p: Path): Option<Bytes> {
    match Lookup(n, p)
    case Some(File(d)) => Some(d)
    case _ => None
  }

  /** The names listed in the directory at `p` (empty when `p` is not a directory). */
  function NamesAt(n: Node, p: Path): set<string> {
    if IsDirAt(n, p) then NameSet(Lookup(n, p).value.entries) else {}
  }

  /** Place `c` at `p`, creating or replacing the entry; fails when the parent is not a directory. */
  function Put(n: Node, p: Path, c: Node): Option<Node>
    requires |p| > 0
    decreases |p|
  {
    match n
    case File(_) => None
    case Dir(es) =>
      if |p| == 1 then Some(Dir(SetChild(es, p[0], c)))
      else
        match Child(n, p[0])
        case None => None
        case Some(k) =>
          match Put(k, p[1..], c)
          case None => None
          case Some(k') => Some(Dir(SetChild(es, p[0], k')))
  }

  /** Every directory of `a` is still a directory in `b`, listing at least the same names. */
  ghost predicate Grows(a: Node, b: Node) {
    forall q :: IsDirAt(a, q) ==> IsDirAt(b, q) && NamesAt(a, q) <= NamesAt(b, q)
  }

  lemma GrowsRefl(a: Node)
    ensures Grows(a, a)
  {
  }

  lemma GrowsTrans(a: Node, b: Node, c: Node)
    requires Grows(a, b) && Grows(b, c)
    ensures Grows(a, c)
  {
  }

  lemma {:induction false} LookupConcat(n: Node, a: Path, b: Path)
    ensures Lookup(n, a + b) == match Lookup(n, a) case None => None case Some(m) => Lookup(m, b)
    decreases |a|
  {
    if |a| == 0 {
      assert a + b == b;
    } else {
      assert (a + b)[0] == a[0];
      assert (a + b)[1..] == a[1..] + b;
      match Child(n, a[0])
      case None =>
      case Some(c) => LookupConcat(c, a[1..], b);
    }
  }

  /** Whatever lies at `p + [s]` is listed in the directory at `p`. */
  lemma EntryListed(n: Node, p: Path, s: string)
    requires Lookup(n, p + [s]).Some?
    ensures s in NamesAt(n, p)
  {
    LookupConcat(n, p, [s]);
    var m := Lookup(n, p).value;
    assert Child(m, s).Some?;
    var k := IndexOfName(m.entries, s);
    assert m.entries[k].name == s;
  }

  /** Nothing lies below a path that is not a directory. */
  lemma BelowNonDir(n: Node, p: Path, s: Path)
    requires !IsDirAt(n, p) && |s| > 0
    ensures Lookup(n, p + s).None?
  {
    LookupConcat(n, p, s);
  }

  /** Whatever exists below the root sits in a directory. */
  lemma ExistsInDir(n: Node, p: Path)
    ensures |p| > 0 && Exists(n, p) ==> IsDirAt(n, Parent(p))
  {
    if |p| > 0 && !IsDirAt(n, Parent(p)) {
      assert Parent(p) + [p[|p| - 1]] == p;
      BelowNonDir(n, Parent(p), [p[|p| - 1]]);
    }
  }

  lemma {:induction false} PutOk(n: Node, p: Path, c: Node)
    requires |p| > 0
    ensures Put(n, p, c).Some? <==> IsDirAt(n, Parent(p))
    decreases |p|
  {
    if |p| > 1 && n.Dir? {
      assert Parent(p)[0] == p[0];
      assert Parent(p)[1..] == Parent(p[1..]);
      match Child(n, p[0])
      case None =>
      case Some(k) => PutOk(k, p[1..], c);
    }
  }

  lemma {:induction false} PutBelow(n: Node, p: Path, c: Node, s: Path)
    requires |p| > 0 && Put(n, p, c).Some?
    ensures Lookup(Put(n, p, c).value, p + s) == Lookup(c, s)
    decreases |p|
  {
    var es := n.entries;
    assert (p + s)[0] == p[0];
    assert (p + s)[1..] == p[1..] + s;
    if |p| == 1 {
      ChildSetChild(es, p[0], c, p[0]);
      assert p[1..] + s == s;
    } else {
      var k := Child(n, p[0]).value;
      var k' := Put(k, p[1..], c).value;
      ChildSetChild(es, p[0], k', p[0]);
      PutBelow(k, p[1..], c, s);
    }
  }

  lemma {:induction false} PutAside(n: Node, p: Path, c: Node, q: Path)
    requires |p| > 0 && Put(n, p, c).Some?
    requires !(p <= q) && !(q <= p)
    ensures Lookup(Put(n, p, c).value, q) == Lookup(n, q)
    decreases |p|
  {
    var es := n.entries;
    assert |q| > 0;
    if |p| == 1 {
      ChildSetChild(es, p[0], c, q[0]);
    } else {
      var k := Child(n, p[0]).value;
      var k' := Put(k, p[1..], c).value;
      ChildSetChild(es, p[0], k', q[0]);
      if q[0] == p[0] {
        assert |q| > 1;
        assert !(p[1..] <= q[1..]) && !(q[1..] <= p[1..]);
        PutAside(k, p[1..], c, q[1..]);
      }
    }
  }

  lemma {:induction false} PutAbove(n: Node, p: Path, c: Node, q: Path)
    requires |p| > 0 && Put(n, p, c).Some?
    requires q < p
    ensures IsDirAt(n, q) && IsDirAt(Put(n, p, c).value, q)
    ensures NamesAt(Put(n, p, c).value, q) == NamesAt(n, q) + {p[|q|]}
    decreases |p|
  {
    var es := n.entries;
    if |p| == 1 {
      ChildSetChild(es, p[0], c, p[0]);
    } else {
      var k := Child(n, p[0]).value;
      var k' := Put(k, p[1..], c).value;
      ChildSetChild(es, p[0], k', p[0]);
      if |q| > 0 {
        assert q[1..] < p[1..];
        PutAbove(k, p[1..], c, q[1..]);
      }
    }
  }

  /** Placing a node where no directory was keeps every directory and its names. */
  lemma PutGrows(n: Node, p: Path, c: Node)
    requires |p| > 0 && Put(n, p, c).Some? && !IsDirAt(n, p)
    ensures Grows(n, Put(n, p, c).value)
  {
    var n' := Put(n, p, c).value;
    forall q
      ensures IsDirAt(n, q) ==> IsDirAt(n', q) && NamesAt(n, q) <= NamesAt(n', q)
    {
      if p <= q {
        var s := q[|p|..];
        assert q == p + s;
        if |s| > 0 {
          BelowNonDir(n, p, s);
        } else {
          assert q == p;
        }
        assert !IsDirAt(n, q);
      } else if q < p {
        PutAbove(n, p, c, q);
      } else {
        PutAside(n, p, c, q);
      }
    }
  }

  /**
   * Placing a file, or an empty directory where nothing was, changes no
   * regular file except the one at `p`.
   */
  lemma PutFrame(n: Node, p: Path, c: Node, q: Path)
    requires |p| > 0 && Put(n, p, c).Some? && !IsDirAt(n, p)
    requires c.File? || (c == Dir([]) && Lookup(n, p).None?)
    requires q != p
    ensures FileAt(Put(n, p, c).value, q) == FileAt(n, q)
  {
    var n' := Put(n, p, c).value;
    if p <= q {
      var s := q[|p|..];
      assert q == p + s;
      PutBelow(n, p, c, s);
      BelowNonDir(n, p, s);
    } else if q < p {
      PutAbove(n, p, c, q);
    } else {
      PutAside(n, p, c, q);
    }
  }

  // ---------------------------------------------------------------------------
  // Well-formedness: names are unique within a directory
  // ---------------------------------------------------------------------------

  predicate UniqueNames(es: seq<Entry>) {
    forall i, j :: 0 <= i < j < |es| ==> es[i].name != es[j].name
  }

  predicate WF(n: Node)
    decreases n
  {
    match n
    case File(_) => true
    case Dir(es) => UniqueNames(es) && forall i :: 0 <= i < |es| ==> WF(es[i].node)
  }

  /** No entry name holds a slash, as in every tree whose paths were split by `join`. */
  predicate PlainNames(n: Node)
    decreases n
  {
    match n
    case File(_) => true
    case Dir(es) => forall i :: 0 <= i < |es| ==> '/' !in es[i].name && PlainNames(es[i].node)
  }

  lemma SetChildWF(es: seq<Entry>, a: string, c: Node)
    requires WF(Dir(es)) && WF(c)
    ensures WF(Dir(SetChild(es, a, c)))
  {
    var es' := SetChild(es, a, c);
    var k := IndexOfName(es, a);
    forall i | 0 <= i < |es'| ensures WF(es'[i].node) {
      if i < |es| && i != k {
        assert es'[i] == es[i];
      }
    }
  }

  lemma {:induction false} PutWF(n: Node, p: Path, c: Node)
    requires |p| > 0 && Put(n, p, c).Some?
    ensures WF(n) && WF(c) ==> WF(Put(n, p, c).value)
    decreases |p|
  {
    var es := n.entries;
    if !WF(n) || !WF(c) {
    } else if |p| == 1 {
      SetChildWF(es, p[0], c);
    } else {
      var k := Child(n, p[0]).value;
      assert WF(k) by {
        var i := IndexOfName(es, p[0]);
        assert es[i].node == k;
      }
      PutWF(k, p[1..], c);
      SetChildWF(es, p[0], Put(k, p[1..], c).value);
    }
  }

  // ---------------------------------------------------------------------------
  // The file-system capabilities
  // ---------------------------------------------------------------------------

  /** `exists(p)` */
  predicate Exists(n: Node, p: Path) {
    Lookup(n, p).Some?
  }

  /**
   * `mkdir(p)`: the root always exists (EEXIST); otherwise the parent must
   * be a directory (ENOENT) and nothing may be at `p` yet (EEXIST).
   */
  function Mkdir(n: Node, p: Path): (r: Result<Node, FsError>)
    ensures |p| == 0 ==> r == Err(EEXIST)
    ensures |p| > 0 ==> (r.Ok? <==> IsDirAt(n, Parent(p)) && !Exists(n, p))
    ensures |p| > 0 && !IsDirAt(n, Parent(p)) ==> r == Err(ENOENT)
    ensures |p| > 0 && IsDirAt(n, Parent(p)) && Exists(n, p) ==> r == Err(EEXIST)
    ensures r.Ok? && |p| > 0 ==> IsDirAt(r.value, p) && NamesAt(r.value, p) == {}
    ensures r.Ok? ==> forall q :: FileAt(r.value, q) == FileAt(n, q)
    ensures r.Ok? ==> Grows(n, r.value)
    ensures r.Ok? && WF(n) ==> WF(r.value)
  {
    if |p| == 0 then Err(EEXIST)
    else if !IsDirAt(n, Parent(p)) then Err(ENOENT)
    else if Exists(n, p) then Err(EEXIST)
    else
      PutOk(n, p, Dir([]));
      var n' := Put(n, p, Dir([])).value;
      PutBelow(n, p, Dir([]), []);
      assert p + [] == p;
      PutGrows(n, p, Dir([]));
      PutWF(n, p, Dir([]));
      assert forall q :: FileAt(n', q) == FileAt(n, q) by {
        forall q ensures FileAt(n', q) == FileAt(n, q) {
          if q != p {
            PutFrame(n, p, Dir([]), q);
          }
        }
      }
      Ok(n')
  }

  /** A directory just made is empty. */
  lemma MkdirFresh(n: Node, p: Path)
    requires Mkdir(n, p).Ok?
    ensures Lookup(Mkdir(n, p).value, p) == Some(Dir([]))
  {
    PutOk(n, p, Dir([]));
    PutBelow(n, p, Dir([]), []);
    assert p + [] == p;
  }

  /** Inside a directory just made there is nothing, as there was nothing there before. */
  lemma InsideFresh(n: Node, p: Path, q: Path)
    requires Mkdir(n, p).Ok?
    ensures |q| > 0 && Parent(q) == p ==> !IsDirAt(n, q) && !IsDirAt(Mkdir(n, p).value, q)
  {
    if |q| > 0 && Parent(q) == p {
      var s := q[|q| - 1];
      assert q == p + [s];
      BelowNonDir(n, p, [s]);
      MkdirFresh(n, p);
      LookupConcat(Mkdir(n, p).value, p, [s]);
    }
  }

  /** After placing `c` at `p`, a directory is one that was there, or one of `c`. */
  lemma PutDirs(n: Node, p: Path, c: Node, q: Path)
    requires |p| > 0 && Put(n, p, c).Some?
    ensures IsDirAt(Put(n, p, c).value, q) ==> IsDirAt(n, q) || (p <= q && IsDirAt(c, q[|p|..]))
  {
    if p <= q {
      var s := q[|p|..];
      assert q == p + s;
      PutBelow(n, p, c, s);
    } else if q < p {
      PutAbove(n, p, c, q);
    } else {
      PutAside(n, p, c, q);
    }
  }

  /** `mkdir` makes no directory but the one asked for. */
  lemma MkdirNoNewDirs(n: Node, p: Path)
    requires Mkdir(n, p).Ok?
    ensures forall q :: IsDirAt(Mkdir(n, p).value, q) ==> IsDirAt(n, q) || q == p
  {
    PutOk(n, p, Dir([]));
    forall q ensures IsDirAt(Mkdir(n, p).value, q) ==> IsDirAt(n, q) || q == p {
      PutDirs(n, p, Dir([]), q);
      if p <= q && |q| == |p| {
        assert q == p;
      }
    }
  }

  /**
   * `writeFile(p, data)`: the parent must be a directory (ENOENT) and `p`
   * must not be one (EISDIR); exactly the file at `p` changes.
   */
  function WriteFile(n: Node, p: Path, data: Bytes): (r: Result<Node, FsError>)
    ensures r.Ok? <==> |p| > 0 && IsDirAt(n, Parent(p)) && !IsDirAt(n, p)
    ensures r.Ok? ==> FileAt(r.value, p) == Some(data)
    ensures r.Ok? ==> forall q :: q != p ==> FileAt(r.value, q) == FileAt(n, q)
    ensures r.Ok? ==> Grows(n, r.value)
    ensures r.Ok? && WF(n) ==> WF(r.value)
  {
    if |p| == 0 then Err(EISDIR)
    else if !IsDirAt(n, Parent(p)) then Err(ENOENT)
    else if IsDirAt(n, p) then Err(EISDIR)
    else
      PutOk(n, p, File(data));
      var n' := Put(n, p, File(data)).value;
      PutBelow(n, p, File(data), []);
      assert p + [] == p;
      PutGrows(n, p, File(data));
      PutWF(n, p, File(data));
      assert forall q :: q != p ==> FileAt(n', q) == FileAt(n, q) by {
        forall q | q != p ensures FileAt(n', q) == FileAt(n, q) {
          PutFrame(n, p, File(data), q);
        }
      }
      Ok(n')
  }

  /** `writeFile` keeps exactly the directories there were. */
  lemma WriteFileNoNewDirs(n: Node, p: Path, data: Bytes)
    requires WriteFile(n, p, data).Ok?
    ensures forall q :: IsDirAt(WriteFile(n, p, data).value, q) <==> IsDirAt(n, q)
  {
    PutOk(n, p, File(data));
    forall q ensures IsDirAt(WriteFile(n, p, data).value, q) ==> IsDirAt(n, q) {
      PutDirs(n, p, File(data), q);
    }
  }

  /** `readdir(p)`: the entry names of the directory at `p`, in order. */
  function ReadDir(n: Node, p: Path): (r: Result<seq<string>, FsError>)
    ensures r.Ok? <==> IsDirAt(n, p)
    ensures r.Ok? ==> (forall x :: x in r.value <==> x in NamesAt(n, p))
  {
    match Lookup(n, p)
    case None => Err(ENOENT)
    case Some(File(_)) => Err(ENOTDIR)
    case Some(Dir(es)) =>
      assert forall x :: x in Names(es) <==> x in NameSet(es) by {
        forall x ensures x in Names(es) <==> x in NameSet(es) {
          if x in Names(es) {
            var i :| 0 <= i < |es| && Names(es)[i] == x;
          }
          if x in NameSet(es) {
            var i :| 0 <= i < |es| && es[i].name == x;
            assert Names(es)[i] == x;
          }
        }
      }
      Ok(Names(es))
  }

  /** `readFile(p)` */
  function ReadFile(n: Node, p: Path): (r: Result<Bytes, FsError>)
    ensures r.Ok? <==> FileAt(n, p).Some?
    ensures r.Ok? ==> r.value == FileAt(n, p).value
  {
    match Lookup(n, p)
    case None => Err(ENOENT)
    case Some(Dir(_)) => Err(EISDIR)
    case Some(File(d)) => Ok(d)
  }
}
