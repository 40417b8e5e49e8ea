/** The JavaScript string operations the source relies on, with their semantics spelled out. */
module Text {
  import opened Base

  /** `pat` occurs in `s` starting at index `i`. */
  predicate OccursAt(s: string, pat: string, i: int) {
    0 <= i && i + |pat| <= |s| && s[i..i + |pat|] == pat
  }

  predicate StartsWith(s: string, prefix: string) {
    OccursAt(s, prefix, 0)
  }

  /** The first occurrence of `pat` in `s` at or after `from`. */
  function IndexFrom(s: string, pat: string, from: nat): (r: Option<nat>)
    requires from <= |s|
    ensures r.Some? ==> from <= r.value && OccursAt(s, pat, r.value)
    ensures r.Some? ==> forall j :: from <= j < r.value ==> !OccursAt(s, pat, j)
    ensures r.None? ==> forall j :: from <= j ==> !OccursAt(s, pat, j)
    decreases |s| - from
  {
    if from + |pat| > |s| then None
    else if s[from..from + |pat|] == pat then Some(from)
    else if from == |s| then None
    else IndexFrom(s, pat, from + 1)
  }

  /** `s.indexOf(pat)`, with `None` for -1. */
  function IndexOf(s: string, pat: string): (r: Option<nat>)
    ensures r.Some? ==> OccursAt(s, pat, r.value)
    ensures r.Some? ==> forall j :: 0 <= j < r.value ==> !OccursAt(s, pat, j)
    ensures r.None? ==> forall j :: !OccursAt(s, pat, j)
  {
    IndexFrom(s, pat, 0)
  }

  lemma {:induction false} IndexFromAbsent(s: string, c: char, from: nat)
    requires from <= |s| && forall k :: from <= k < |s| ==> s[k] != c
    ensures IndexFrom(s, [c], from).None?
    decreases |s| - from
  {
    if from + 1 <= |s| {
      assert s[from..from + 1][0] == s[from];
      IndexFromAbsent(s, c, from + 1);
    }
  }

  /** A character that does not occur is not found. */
  lemma IndexOfAbsent(s: string, c: char)
    ensures c !in s ==> IndexOf(s, [c]).None?
  {
    if c !in s {
      IndexFromAbsent(s, c, 0);
    }
  }

  /** `s.replace(pat, rep)` with a string pattern: only the first occurrence is replaced. */
  function ReplaceFirst(s: string, pat: string, rep: string): (r: string)
    ensures IndexOf(s, pat).None? ==> r == s
    ensures IndexOf(s, pat).Some? ==>
      var i := IndexOf(s, pat).value; r == s[..i] + rep + s[i + |pat|..]
  {
    match IndexOf(s, pat)
    case None => s
    case Some(i) => s[..i] + rep + s[i + |pat|..]
  }

  /** Replacing a single character acts on its first occurrence and keeps the rest. */
  lemma ReplaceFirstChar(a: string, c: char, b: string, rep: string)
    requires c !in a
    ensures ReplaceFirst(a + [c] + b, [c], rep) == a + rep + b
  {
    var s := a + [c] + b;
    assert OccursAt(s, [c], |a|) by { assert s[|a|..|a| + 1] == [c]; }
    forall j | 0 <= j < |a| ensures !OccursAt(s, [c], j) {
      assert s[j..j + 1][0] == a[j];
    }
    assert IndexOf(s, [c]) == Some(|a|);
    assert s[..|a|] == a;
    assert s[|a| + 1..] == b;
  }

  /** `s.lastIndexOf(c)` for a one-character pattern: -1 when `c` does not occur. */
  function LastIndexOf(s: string, c: char): (r: int)
    ensures -1 <= r < |s|
    ensures r >= 0 ==> s[r] == c
    ensures forall j :: r < j < |s| ==> s[j] != c
  {
    if |s| == 0 then -1
    else if s[|s| - 1] == c then |s| - 1
    else LastIndexOf(s[..|s| - 1], c)
  }

  /** `s.substr(0, s.lastIndexOf(c))`: a negative length yields the empty string. */
  function BeforeLast(s: string, c: char): string {
    var i := LastIndexOf(s, c);
    if i < 0 then "" else s[..i]
  }

  /** `s.substr(s.lastIndexOf(c) + 1)`: the whole string when `c` does not occur. */
  function AfterLast(s: string, c: char): string {
    var i := LastIndexOf(s, c);
    s[i + 1..]
  }

  lemma SplitAtLast(a: string, c: char, b: string)
    requires c !in b
    ensures LastIndexOf(a + [c] + b, c) == |a|
    ensures BeforeLast(a + [c] + b, c) == a
    ensures AfterLast(a + [c] + b, c) == b
  {
    var s := a + [c] + b;
    var i := LastIndexOf(s, c);
    assert s[|a|] == c;
    assert s[..|a|] == a;
    assert s[|a| + 1..] == b;
  }

  /** `n` copies of the character `c`. */
  function Repeat(c: char, n: nat): (r: string)
    ensures |r| == n && forall i :: 0 <= i < n ==> r[i] == c
  {
    if n == 0 then "" else Repeat(c, n - 1) + [c]
  }

  /**
   * The non-empty segments of a slash-separated path, the way an in-memory
   * file system splits the path it is given.
   */
  function Segments(s: string): (r: seq<string>)
    ensures forall i :: 0 <= i < |r| ==> |r[i]| > 0 && '/' !in r[i]
  {
    SegmentsFrom(s, "")
  }

  function SegmentsFrom(s: string, current: string): (r: seq<string>)
    requires '/' !in current
    ensures forall i :: 0 <= i < |r| ==> |r[i]| > 0 && '/' !in r[i]
    decreases |s|
  {
    var done := if current == "" then [] else [current];
    if |s| == 0 then done
    else if s[0] == '/' then done + SegmentsFrom(s[1..], "")
    else SegmentsFrom(s[1..], current + [s[0]])
  }

  lemma {:induction false} SegmentsFromPlain(s: string, current: string)
    requires '/' !in current && '/' !in s && |current + s| > 0
    ensures SegmentsFrom(s, current) == [current + s]
    decreases |s|
  {
    if |s| > 0 {
      assert s[0] in s;
      assert (current + [s[0]]) + s[1..] == current + s;
      SegmentsFromPlain(s[1..], current + [s[0]]);
    } else {
      assert current + s == current;
    }
  }

  predicate EndsWith(s: string, suffix: string) {
    |suffix| <= |s| && s[|s| - |suffix|..] == suffix
  }

  lemma {:induction false} SegmentsFromSuffix(s: string, current: string, b: string)
    requires '/' !in current && '/' !in b && |b| > 0 && EndsWith(s, b)
    ensures var r := SegmentsFrom(s, current); |r| > 0 && EndsWith(r[|r| - 1], b)
    decreases |s|
  {
    if |s| == |b| {
      assert s == b;
      SegmentsFromPlain(s, current);
    } else if s[0] == '/' {
      assert s[1..][|s| - 1 - |b|..] == s[|s| - |b|..];
      SegmentsFromSuffix(s[1..], "", b);
    } else {
      assert s[1..][|s| - 1 - |b|..] == s[|s| - |b|..];
      SegmentsFromSuffix(s[1..], current + [s[0]], b);
    }
  }

  /** A path whose text ends in a slash-free suffix has a last segment ending in it. */
  lemma SegmentsSuffix(s: string, b: string)
    requires '/' !in b && |b| > 0 && EndsWith(s, b)
    ensures var r := Segments(s); |r| > 0 && EndsWith(r[|r| - 1], b)
  {
    SegmentsFromSuffix(s, "", b);
  }

  /** A non-empty name without a slash is a single path segment. */
  lemma SegmentsOfPlain(s: string)
    requires '/' !in s && |s| > 0
    ensures Segments(s) == [s]
  {
    SegmentsFromPlain(s, "");
    assert "" + s == s;
  }
}
